/** Visits in batches. */
module Batches {
  // A batch is filtered by the visited bitmap when it is collected, not when its nodes are
  // visited; so a node that a batch holds twice is visited twice. When batches do what visiting
  // one node at a time does, and when not.

  import opened Sequences
  import opened Ranking
  import opened BestFirst

  // ---------------------------------------------------------------------------------------
  // The batched loop
  // ---------------------------------------------------------------------------------------

  /** The nodes of a list that are unvisited in a given state. */
  function FreshOnes(b: Beam, nodes: seq<nat>, dists: seq<real>): seq<nat> {
    if nodes == [] then []
    else
      var rest, n := FreshOnes(b, nodes[..|nodes| - 1], dists), nodes[|nodes| - 1];
      if IsFresh(b, n, dists) then rest + [n] else rest
  }

  /** Visits the nodes of a batch in order, without asking again whether they have been visited. */
  function VisitAll(b: Beam, batch: seq<nat>, dists: seq<real>, ef: nat): Beam
    requires ef >= 1
  {
    if batch == [] then b
    else
      var rest, n := VisitAll(b, batch[..|batch| - 1], dists, ef), batch[|batch| - 1];
      if n < |dists| then Visit(rest, Entry(dists, n), ef) else rest
  }

  /** One batch. */
  function BatchVisit(b: Beam, window: seq<nat>, dists: seq<real>, ef: nat): Beam
    requires ef >= 1
  {
    VisitAll(b, FreshOnes(b, window, dists), dists, ef)
  }

  /** A list of nodes, `width` at a time. */
  function BatchScan(b: Beam, nodes: seq<nat>, width: nat, dists: seq<real>, ef: nat): Beam
    requires ef >= 1 && width >= 1
    decreases |nodes|
  {
    if |nodes| <= width then BatchVisit(b, nodes, dists, ef)
    else BatchScan(BatchVisit(b, nodes[..width], dists, ef), nodes[width..], width, dists, ef)
  }

  lemma BatchScanNone(b: Beam, nodes: seq<nat>, width: nat, dists: seq<real>, ef: nat)
    requires ef >= 1 && width >= 1 && nodes == []
    ensures BatchScan(b, nodes, width, dists, ef) == b
  {
  }

  /** What is left of the list after its first batch. */
  lemma BatchScanStep(b: Beam, nodes: seq<nat>, at: nat, end: nat, width: nat, dists: seq<real>, ef: nat)
    requires ef >= 1 && width >= 1 && at < |nodes|
    requires end == if at + width < |nodes| then at + width else |nodes|
    ensures BatchScan(b, nodes[at..], width, dists, ef)
         == BatchScan(BatchVisit(b, nodes[at..end], dists, ef), nodes[end..], width, dists, ef)
  {
    var rest := nodes[at..];
    if |rest| <= width {
      assert nodes[at..end] == rest && nodes[end..] == [];
    } else {
      assert nodes[at..end] == rest[..width] && nodes[end..] == rest[width..];
    }
  }

  function BatchExpand(b: Beam, e: Expansion, width: nat, dists: seq<real>, ef: nat): Beam
    requires ef >= 1 && width >= 1 && b.frontier != []
  {
    var popped := b.(frontier := b.frontier[1..]);
    BatchScan(popped, Candidates(e, popped, b.frontier[0].id), width, dists, ef)
  }

  function BatchRun(b: Beam, e: Expansion, width: nat, dists: seq<real>, ef: nat): Beam
    requires ef >= 1 && width >= 1
    decreases |Unvisited(b, dists)|, |b.frontier|
  {
    if b.frontier == [] || Settled(b, ef) then b
    else
      BatchExpandWork(b, e, width, dists, ef);
      BatchRun(BatchExpand(b, e, width, dists, ef), e, width, dists, ef)
  }

  function BatchSearch(entry: nat, e: Expansion, width: nat, dists: seq<real>, ef: nat, k: nat): seq<nat>
    requires ef >= 1 && width >= 1 && entry < |dists|
  {
    Answer(BatchRun(Start(entry, dists), e, width, dists, ef), k)
  }

  // ---------------------------------------------------------------------------------------
  // What a batch visits; termination
  // ---------------------------------------------------------------------------------------

  /** The nodes of a list that have a distance. */
  function InRange(nodes: seq<nat>, size: nat): set<nat> {
    set n | n in nodes && n < size
  }

  lemma {:induction false} FreshOnesFrom(b: Beam, nodes: seq<nat>, dists: seq<real>)
    ensures forall n :: n in FreshOnes(b, nodes, dists) <==> n in nodes && IsFresh(b, n, dists)
    ensures |FreshOnes(b, nodes, dists)| <= |nodes|
  {
    if nodes != [] {
      FreshOnesFrom(b, nodes[..|nodes| - 1], dists);
      assert nodes == nodes[..|nodes| - 1] + [nodes[|nodes| - 1]];
    }
  }

  lemma {:induction false} VisitAllVisits(b: Beam, batch: seq<nat>, dists: seq<real>, ef: nat)
    requires ef >= 1
    ensures VisitAll(b, batch, dists, ef).visited == b.visited + InRange(batch, |dists|)
  {
    if batch != [] {
      VisitAllVisits(b, batch[..|batch| - 1], dists, ef);
      assert batch == batch[..|batch| - 1] + [batch[|batch| - 1]];
    }
  }

  lemma BatchVisits(b: Beam, window: seq<nat>, dists: seq<real>, ef: nat)
    requires ef >= 1
    ensures BatchVisit(b, window, dists, ef).visited == b.visited + InRange(window, |dists|)
    ensures BatchVisit(b, window, dists, ef) == b
            || Unvisited(BatchVisit(b, window, dists, ef), dists) < Unvisited(b, dists)
  {
    var batch := FreshOnes(b, window, dists);
    FreshOnesFrom(b, window, dists);
    VisitAllVisits(b, batch, dists, ef);
    if batch != [] {
      assert batch[0] in batch;
      assert batch[0] in Unvisited(b, dists);
    }
  }

  lemma {:induction false} BatchScanVisits(b: Beam, nodes: seq<nat>, width: nat, dists: seq<real>, ef: nat)
    requires ef >= 1 && width >= 1
    ensures BatchScan(b, nodes, width, dists, ef).visited == b.visited + InRange(nodes, |dists|)
    ensures BatchScan(b, nodes, width, dists, ef) == b
         || Unvisited(BatchScan(b, nodes, width, dists, ef), dists) < Unvisited(b, dists)
    decreases |nodes|
  {
    if |nodes| <= width {
      BatchVisits(b, nodes, dists, ef);
    } else {
      BatchVisits(b, nodes[..width], dists, ef);
      BatchScanVisits(BatchVisit(b, nodes[..width], dists, ef), nodes[width..], width, dists, ef);
      assert nodes == nodes[..width] + nodes[width..];
    }
  }

  /** A node may be queued more often than once, but only in a batch that visits some node for the
      first time: the loop ends. */
  lemma BatchExpandWork(b: Beam, e: Expansion, width: nat, dists: seq<real>, ef: nat)
    requires ef >= 1 && width >= 1 && b.frontier != []
    ensures var c := BatchExpand(b, e, width, dists, ef);
      || |Unvisited(c, dists)| < |Unvisited(b, dists)|
      || (Unvisited(c, dists) == Unvisited(b, dists) && |c.frontier| < |b.frontier|)
  {
    var popped := b.(frontier := b.frontier[1..]);
    assert Unvisited(popped, dists) == Unvisited(b, dists);
    var c := BatchExpand(b, e, width, dists, ef);
    BatchScanVisits(popped, Candidates(e, popped, b.frontier[0].id), width, dists, ef);
    if c != popped {
      ProperSubsetSize(Unvisited(c, dists), Unvisited(b, dists));
    }
  }

  lemma ProperSubsetSize(a: set<nat>, b: set<nat>)
    requires a < b
    ensures |a| < |b|
  {
    var x :| x in b && x !in a;
    SubsetSize(a, b - {x});
  }

  // ---------------------------------------------------------------------------------------
  // What the loop keeps
  // ---------------------------------------------------------------------------------------

  /** The results are in order, and the queued nodes have a distance. */
  ghost predicate Orderly(b: Beam, size: nat) {
    Ascending(b.best) && QueueInRange(b.frontier, size)
  }

  lemma VisitOrderly(b: Beam, n: nat, dists: seq<real>, ef: nat)
    requires ef >= 1 && Orderly(b, |dists|) && n < |dists|
    ensures Orderly(Visit(b, Entry(dists, n), ef), |dists|)
  {
    var x := Entry(dists, n);
    InsertAscending(b.best, x);
    InsertContents(b.frontier, x);
    var queue := Insert(b.frontier, x);
    forall i | 0 <= i < |queue| ensures queue[i].id < |dists| {
      assert queue[i] in queue;
    }
  }

  lemma {:induction false} VisitAllOrderly(b: Beam, batch: seq<nat>, dists: seq<real>, ef: nat)
    requires ef >= 1 && Orderly(b, |dists|)
    ensures Orderly(VisitAll(b, batch, dists, ef), |dists|)
  {
    if batch != [] {
      var rest, n := batch[..|batch| - 1], batch[|batch| - 1];
      VisitAllOrderly(b, rest, dists, ef);
      if n < |dists| { VisitOrderly(VisitAll(b, rest, dists, ef), n, dists, ef); }
    }
  }

  lemma {:induction false} BatchScanOrderly(b: Beam, nodes: seq<nat>, width: nat, dists: seq<real>, ef: nat)
    requires ef >= 1 && width >= 1 && Orderly(b, |dists|)
    ensures Orderly(BatchScan(b, nodes, width, dists, ef), |dists|)
    decreases |nodes|
  {
    if |nodes| <= width {
      VisitAllOrderly(b, FreshOnes(b, nodes, dists), dists, ef);
    } else {
      VisitAllOrderly(b, FreshOnes(b, nodes[..width], dists), dists, ef);
      BatchScanOrderly(BatchVisit(b, nodes[..width], dists, ef), nodes[width..], width, dists, ef);
    }
  }

  lemma BatchRunStops(b: Beam, e: Expansion, width: nat, dists: seq<real>, ef: nat)
    requires ef >= 1 && width >= 1 && (b.frontier == [] || Settled(b, ef))
    ensures BatchRun(b, e, width, dists, ef) == b
  {
  }

  /** One turn of the loop leaves less work and the same outcome. */
  lemma BatchExpandStep(b: Beam, e: Expansion, width: nat, dists: seq<real>, ef: nat)
    requires ef >= 1 && width >= 1 && Orderly(b, |dists|) && b.frontier != [] && !Settled(b, ef)
    ensures Orderly(BatchExpand(b, e, width, dists, ef), |dists|)
    ensures BatchRun(b, e, width, dists, ef) == BatchRun(BatchExpand(b, e, width, dists, ef), e, width, dists, ef)
  {
    var popped := b.(frontier := b.frontier[1..]);
    BatchScanOrderly(popped, Candidates(e, popped, b.frontier[0].id), width, dists, ef);
  }

  /** The result heap of a finished search is in order. */
  lemma {:induction false} BatchRunAscending(b: Beam, e: Expansion, width: nat, dists: seq<real>, ef: nat)
    requires ef >= 1 && width >= 1 && Orderly(b, |dists|)
    ensures Ascending(BatchRun(b, e, width, dists, ef).best)
    decreases |Unvisited(b, dists)|, |b.frontier|
  {
    if b.frontier == [] || Settled(b, ef) {
    } else {
      BatchExpandStep(b, e, width, dists, ef);
      BatchExpandWork(b, e, width, dists, ef);
      BatchRunAscending(BatchExpand(b, e, width, dists, ef), e, width, dists, ef);
    }
  }

  /** Every entry is a visited node at its true distance; a node may occur more than once. */
  ghost predicate TrueEntries(b: Beam, dists: seq<real>, ef: nat) {
    && |b.best| <= ef
    && (forall x :: x in b.best ==> x.id in b.visited && x.id < |dists| && x == Entry(dists, x.id))
    && (forall x :: x in b.frontier ==> x.id in b.visited)
  }

  lemma {:induction false} VisitAllTrue(b: Beam, batch: seq<nat>, dists: seq<real>, ef: nat)
    requires ef >= 1 && TrueEntries(b, dists, ef)
    ensures TrueEntries(VisitAll(b, batch, dists, ef), dists, ef)
  {
    if batch != [] {
      var rest, n := batch[..|batch| - 1], batch[|batch| - 1];
      VisitAllTrue(b, rest, dists, ef);
      if n < |dists| {
        InsertContents(VisitAll(b, rest, dists, ef).best, Entry(dists, n));
        InsertContents(VisitAll(b, rest, dists, ef).frontier, Entry(dists, n));
      }
    }
  }

  lemma {:induction false} BatchScanTrue(b: Beam, nodes: seq<nat>, width: nat, dists: seq<real>, ef: nat)
    requires ef >= 1 && width >= 1 && TrueEntries(b, dists, ef)
    ensures TrueEntries(BatchScan(b, nodes, width, dists, ef), dists, ef)
    decreases |nodes|
  {
    if |nodes| <= width {
      VisitAllTrue(b, FreshOnes(b, nodes, dists), dists, ef);
    } else {
      VisitAllTrue(b, FreshOnes(b, nodes[..width], dists), dists, ef);
      BatchScanTrue(BatchVisit(b, nodes[..width], dists, ef), nodes[width..], width, dists, ef);
    }
  }

  lemma {:induction false} BatchRunTrue(b: Beam, e: Expansion, width: nat, dists: seq<real>, ef: nat, region: set<nat>)
    requires ef >= 1 && width >= 1 && TrueEntries(b, dists, ef)
    requires b.visited <= region && ClosedUnderEdges(region, e.adj, dists)
    ensures TrueEntries(BatchRun(b, e, width, dists, ef), dists, ef)
    ensures BatchRun(b, e, width, dists, ef).visited <= region
    decreases |Unvisited(b, dists)|, |b.frontier|
  {
    if b.frontier == [] || Settled(b, ef) {
    } else {
      var popped, u := b.(frontier := b.frontier[1..]), b.frontier[0].id;
      assert b.frontier[0] in b.frontier;
      CandidatesAreNeighbours(e, popped, u);
      BatchScanTrue(popped, Candidates(e, popped, u), width, dists, ef);
      BatchScanVisits(popped, Candidates(e, popped, u), width, dists, ef);
      BatchExpandWork(b, e, width, dists, ef);
      BatchRunTrue(BatchExpand(b, e, width, dists, ef), e, width, dists, ef, region);
    }
  }

  /** What a batched search guarantees of every graph, repeated neighbours or not: at most ef results, in
      order, each a reachable node at its true distance. */
  lemma BatchRunFinds(entry: nat, e: Expansion, width: nat, dists: seq<real>, ef: nat)
    requires ef >= 1 && width >= 1 && entry < |dists|
    ensures var best := BatchRun(Start(entry, dists), e, width, dists, ef).best;
      && Ascending(best) && |best| <= ef
      && forall x :: x in best ==> x.id in Reachable(entry, e.adj, dists) && x == Entry(dists, x.id)
  {
    ReachableIsClosed(entry, e.adj, dists);
    BatchRunTrue(Start(entry, dists), e, width, dists, ef, Reachable(entry, e.adj, dists));
    BatchRunAscending(Start(entry, dists), e, width, dists, ef);
  }

  // ---------------------------------------------------------------------------------------
  // Exactly when batches change nothing
  // ---------------------------------------------------------------------------------------

  /** No node below `size` that has not been seen occurs twice. */
  predicate NoneTwice(nodes: seq<nat>, seen: set<nat>, size: nat) {
    forall i, j :: 0 <= i < j < |nodes| && nodes[i] == nodes[j] ==> nodes[i] in seen || nodes[i] >= size
  }

  /** No batch holds twice a node that no earlier batch held. */
  predicate BatchesDistinct(nodes: seq<nat>, seen: set<nat>, width: nat, size: nat)
    requires width >= 1
    decreases |nodes|
  {
    if |nodes| <= width then NoneTwice(nodes, seen, size)
    else
      && NoneTwice(nodes[..width], seen, size)
      && BatchesDistinct(nodes[width..], seen + InRange(nodes[..width], size), width, size)
  }

  lemma {:induction false} FreshOnesDistinct(b: Beam, nodes: seq<nat>, dists: seq<real>)
    ensures NoRepeats(FreshOnes(b, nodes, dists)) <==> NoneTwice(nodes, b.visited, |dists|)
  {
    if nodes != [] {
      var rest, n := nodes[..|nodes| - 1], nodes[|nodes| - 1];
      FreshOnesDistinct(b, rest, dists);
      FreshOnesFrom(b, rest, dists);
      var before := FreshOnes(b, rest, dists);
      if n in before {
        var i :| 0 <= i < |rest| && rest[i] == n;
        var p :| 0 <= p < |before| && before[p] == n;
        var all := FreshOnes(b, nodes, dists);
        assert all == before + [n];
        assert all[p] == all[|before|];
        assert nodes[i] == nodes[|rest|];
      } else {
        NoneTwiceSplit(rest, n, b.visited, |dists|);
        assert nodes == rest + [n];
        NoRepeatsAppend(before, n);
      }
    }
  }

  lemma NoneTwiceSplit(nodes: seq<nat>, n: nat, seen: set<nat>, size: nat)
    requires n !in nodes || n in seen || n >= size
    ensures NoneTwice(nodes + [n], seen, size) <==> NoneTwice(nodes, seen, size)
  {
    var all := nodes + [n];
    if NoneTwice(all, seen, size) {
      forall i, j | 0 <= i < j < |nodes| && nodes[i] == nodes[j] ensures nodes[i] in seen || nodes[i] >= size {
        assert all[i] == all[j];
      }
    }
  }

  /** In a batch without repetitions, testing each node at its turn changes nothing. */
  lemma {:induction false} VisitAllIsScan(b: Beam, batch: seq<nat>, dists: seq<real>, ef: nat)
    requires ef >= 1 && NoRepeats(batch) && forall n :: n in batch ==> IsFresh(b, n, dists)
    ensures VisitAll(b, batch, dists, ef) == Scan(b, batch, dists, ef)
  {
    if batch != [] {
      var rest := batch[..|batch| - 1];
      VisitAllIsScan(b, rest, dists, ef);
      ScanVisits(b, rest, dists, ef);
      assert batch[|batch| - 1] in batch;
    }
  }

  /** Dropping the nodes that are already visited changes nothing. */
  lemma {:induction false} ScanFreshOnes(b: Beam, nodes: seq<nat>, dists: seq<real>, ef: nat)
    requires ef >= 1
    ensures Scan(b, FreshOnes(b, nodes, dists), dists, ef) == Scan(b, nodes, dists, ef)
  {
    if nodes != [] {
      var head, n := nodes[..|nodes| - 1], nodes[|nodes| - 1];
      ScanFreshOnes(b, head, dists, ef);
      if IsFresh(b, n, dists) {
        var kept := FreshOnes(b, head, dists);
        assert (kept + [n])[..|kept + [n]| - 1] == kept;
      } else {
        ScanVisits(b, head, dists, ef);
      }
    }
  }

  lemma BatchVisitIsScan(b: Beam, window: seq<nat>, dists: seq<real>, ef: nat)
    requires ef >= 1 && NoneTwice(window, b.visited, |dists|)
    ensures BatchVisit(b, window, dists, ef) == Scan(b, window, dists, ef)
  {
    FreshOnesDistinct(b, window, dists);
    FreshOnesFrom(b, window, dists);
    VisitAllIsScan(b, FreshOnes(b, window, dists), dists, ef);
    ScanFreshOnes(b, window, dists, ef);
  }

  lemma {:induction false} BatchScanIsScan(b: Beam, nodes: seq<nat>, width: nat, dists: seq<real>, ef: nat)
    requires ef >= 1 && width >= 1 && BatchesDistinct(nodes, b.visited, width, |dists|)
    ensures BatchScan(b, nodes, width, dists, ef) == Scan(b, nodes, dists, ef)
    decreases |nodes|
  {
    if |nodes| <= width {
      BatchVisitIsScan(b, nodes, dists, ef);
    } else {
      BatchVisitIsScan(b, nodes[..width], dists, ef);
      BatchVisits(b, nodes[..width], dists, ef);
      BatchScanIsScan(BatchVisit(b, nodes[..width], dists, ef), nodes[width..], width, dists, ef);
      ScanAppend(b, nodes[..width], nodes[width..], dists, ef);
      assert nodes[..width] + nodes[width..] == nodes;
    }
  }

  /** With room for everything, each visit queues its node. */
  lemma {:induction false} VisitAllQueues(b: Beam, batch: seq<nat>, dists: seq<real>, ef: nat)
    requires ef >= 1 && |b.best| + |batch| <= ef && forall i :: 0 <= i < |batch| ==> batch[i] < |dists|
    ensures |VisitAll(b, batch, dists, ef).best| == |b.best| + |batch|
    ensures |VisitAll(b, batch, dists, ef).frontier| == |b.frontier| + |batch|
  {
    if batch != [] {
      VisitAllQueues(b, batch[..|batch| - 1], dists, ef);
    }
  }

  lemma {:induction false} RepeatsCount(nodes: seq<nat>)
    ensures |SetOf(nodes)| <= |nodes|
    ensures NoRepeats(nodes) <==> |SetOf(nodes)| == |nodes|
  {
    if nodes != [] {
      var rest, n := nodes[..|nodes| - 1], nodes[|nodes| - 1];
      assert nodes == rest + [n];
      RepeatsCount(rest);
      if n in rest {
        assert SetOf(nodes) == SetOf(rest);
        var i :| 0 <= i < |rest| && rest[i] == n;
        assert nodes[i] == nodes[|rest|];
      } else {
        assert SetOf(nodes) == SetOf(rest) + {n};
        NoRepeatsAppend(rest, n);
      }
    }
  }

  /** With room for everything, a batch queues at least as many nodes as it visits for the first
      time, and no more exactly when it holds none of them twice. */
  lemma BatchVisitQueues(b: Beam, window: seq<nat>, dists: seq<real>, ef: nat)
    requires ef >= 1 && |b.best| + |window| <= ef
    ensures var c := BatchVisit(b, window, dists, ef);
      && |c.best| <= |b.best| + |window|
      && |c.frontier| - |b.frontier| >= |c.visited| - |b.visited|
      && (|c.frontier| - |b.frontier| == |c.visited| - |b.visited| <==> NoneTwice(window, b.visited, |dists|))
  {
    var batch, c := FreshOnes(b, window, dists), BatchVisit(b, window, dists, ef);
    FreshOnesFrom(b, window, dists);
    assert forall i :: 0 <= i < |batch| ==> batch[i] in batch;
    VisitAllQueues(b, batch, dists, ef);
    VisitAllVisits(b, batch, dists, ef);
    assert InRange(batch, |dists|) == SetOf(batch) && SetOf(batch) !! b.visited;
    RepeatsCount(batch);
    FreshOnesDistinct(b, window, dists);
  }

  lemma {:induction false} BatchScanQueues(b: Beam, nodes: seq<nat>, width: nat, dists: seq<real>, ef: nat)
    requires ef >= 1 && width >= 1 && |b.best| + |nodes| <= ef
    ensures var c := BatchScan(b, nodes, width, dists, ef);
      && |c.frontier| - |b.frontier| >= |c.visited| - |b.visited|
      && (|c.frontier| - |b.frontier| == |c.visited| - |b.visited|
          <==> BatchesDistinct(nodes, b.visited, width, |dists|))
    decreases |nodes|
  {
    if |nodes| <= width {
      BatchVisitQueues(b, nodes, dists, ef);
    } else {
      BatchVisitQueues(b, nodes[..width], dists, ef);
      BatchVisits(b, nodes[..width], dists, ef);
      BatchScanQueues(BatchVisit(b, nodes[..width], dists, ef), nodes[width..], width, dists, ef);
    }
  }

  lemma {:induction false} ScanQueuesOnce(b: Beam, nodes: seq<nat>, dists: seq<real>, ef: nat)
    requires ef >= 1 && |b.best| + |nodes| <= ef
    ensures var c := Scan(b, nodes, dists, ef);
      && |c.best| <= |b.best| + |nodes|
      && |c.frontier| - |b.frontier| == |c.visited| - |b.visited|
  {
    if nodes != [] {
      ScanQueuesOnce(b, nodes[..|nodes| - 1], dists, ef);
    }
  }

  /** Taking a list `width` nodes at a time does what taking it one at a time does, in every state
      with these nodes visited and for every ef, exactly when no batch holds a node twice that is
      new to it. */
  lemma BatchesExactly(nodes: seq<nat>, seen: set<nat>, width: nat, dists: seq<real>)
    requires width >= 1
    ensures (forall b: Beam, ef: nat :: ef >= 1 && b.visited == seen ==>
               BatchScan(b, nodes, width, dists, ef) == Scan(b, nodes, dists, ef))
       <==> BatchesDistinct(nodes, seen, width, |dists|)
  {
    var empty, room := Beam([], [], seen), |nodes| + 1;
    BatchScanQueues(empty, nodes, width, dists, room);
    ScanQueuesOnce(empty, nodes, dists, room);
    if BatchesDistinct(nodes, seen, width, |dists|) {
      forall b: Beam, ef: nat | ef >= 1 && b.visited == seen
        ensures BatchScan(b, nodes, width, dists, ef) == Scan(b, nodes, dists, ef)
      {
        BatchScanIsScan(b, nodes, width, dists, ef);
      }
    } else {
      assert BatchScan(empty, nodes, width, dists, room) != Scan(empty, nodes, dists, room);
    }
  }

  /** Batches of one node never hold a node twice; nor do batches of a list without repetitions. */
  lemma {:induction false} DistinctBatches(nodes: seq<nat>, seen: set<nat>, width: nat, size: nat)
    requires width >= 1 && (width == 1 || NoneTwice(nodes, {}, size))
    ensures BatchesDistinct(nodes, seen, width, size)
    decreases |nodes|
  {
    if |nodes| > width {
      var rest := nodes[width..];
      assert forall i :: 0 <= i < |rest| ==> rest[i] == nodes[width + i];
      DistinctBatches(rest, seen + InRange(nodes[..width], size), width, size);
    }
  }

  // ---------------------------------------------------------------------------------------
  // Whole searches
  // ---------------------------------------------------------------------------------------

  predicate DistinctIds(s: seq<Scored>) {
    forall i, j :: 0 <= i < j < |s| ==> s[i].id != s[j].id
  }

  lemma {:induction false} EstimatedDistinct(b: Beam, list: seq<nat>, estimates: seq<real>)
    requires NoneTwice(list, b.visited, |estimates|)
    ensures DistinctIds(Estimated(b, list, estimates))
  {
    if list != [] {
      var last := |list| - 1;
      EstimatedDistinct(b, list[..last], estimates);
      EstimatedFrom(b, list[..last], estimates);
      var rest := Estimated(b, list[..last], estimates);
      forall i | 0 <= i < |rest| && list[last] < |estimates| && list[last] !in b.visited
        ensures rest[i].id != list[last]
      {
        assert rest[i] in rest;
        var j :| 0 <= j < last && list[..last][j] == rest[i].id;
        assert list[j] == rest[i].id;
      }
    }
  }

  /** When no unvisited neighbour is listed twice, no candidate is. */
  lemma CandidatesDistinct(b: Beam, u: nat, adj: seq<seq<nat>>, estimates: seq<real>, k: nat)
    requires NoneTwice(Adjacent(adj, u), b.visited, |estimates|)
    ensures NoRepeats(Candidates(PqRanked(adj, estimates, k), b, u))
  {
    var est := Estimated(b, Adjacent(adj, u), estimates);
    EstimatedDistinct(b, Adjacent(adj, u), estimates);
    EstimatedFrom(b, Adjacent(adj, u), estimates);
    forall i, j | 0 <= i < j < |est| ensures est[i] != est[j] {
      assert est[i].id != est[j].id;
    }
    SortStrict(est);
    SortContents(est);
    var sorted := Sort(est);
    forall i, j | 0 <= i < j < |sorted| ensures sorted[i].id != sorted[j].id {
      assert sorted[i] in est && sorted[j] in est;
      assert Before(sorted[i], sorted[j]);
    }
  }

  /** No list names a node of the graph twice, other than its owner. */
  predicate ListsDistinct(adj: seq<seq<nat>>) {
    forall u :: 0 <= u < |adj| ==> NoneTwice(adj[u], {u}, |adj|)
  }

  lemma {:induction false} RunsAgree(b: Beam, adj: seq<seq<nat>>, estimates: seq<real>, k: nat, width: nat,
                                     dists: seq<real>, ef: nat)
    requires ef >= 1 && width >= 1 && |estimates| == |adj| && Sound(b, dists, ef)
    requires width == 1 || ListsDistinct(adj)
    ensures BatchRun(b, PqRanked(adj, estimates, k), width, dists, ef) == Run(b, PqRanked(adj, estimates, k), dists, ef)
    decreases Work(b, dists)
  {
    var e := PqRanked(adj, estimates, k);
    if b.frontier == [] || Settled(b, ef) {
    } else {
      var popped, u := b.(frontier := b.frontier[1..]), b.frontier[0].id;
      assert b.frontier[0] in b.frontier;
      if width > 1 {
        assert u < |adj| ==> NoneTwice(adj[u], {u}, |adj|);
        CandidatesDistinct(popped, u, adj, estimates, k);
      }
      DistinctBatches(Candidates(e, popped, u), popped.visited, width, |dists|);
      BatchScanIsScan(popped, Candidates(e, popped, u), width, dists, ef);
      PopSound(b, dists, ef);
      ScanSound(popped, Candidates(e, popped, u), dists, ef);
      ExpandWork(b, e, dists, ef);
      RunsAgree(Expand(b, e, dists, ef), adj, estimates, k, width, dists, ef);
    }
  }

  /** With batches of one, or without repeated neighbours, batching does not change the answer. */
  lemma SearchesAgree(entry: nat, adj: seq<seq<nat>>, estimates: seq<real>, width: nat, dists: seq<real>, ef: nat,
                      k: nat)
    requires ef >= 1 && width >= 1 && entry < |dists| && |estimates| == |adj|
    requires width == 1 || ListsDistinct(adj)
    ensures BatchSearch(entry, PqRanked(adj, estimates, k), width, dists, ef, k)
         == Search(entry, PqRanked(adj, estimates, k), dists, ef, k)
  {
    StartSound(entry, dists, ef);
    RunsAgree(Start(entry, dists), adj, estimates, k, width, dists, ef);
  }

  /** Once the worst result is at distance zero, nothing enters the results any more. */
  predicate Filled(b: Beam, ef: nat) {
    |b.best| == ef >= 1 && b.best[ef - 1].dist == 0.0
  }

  predicate AllAtZero(dists: seq<real>) {
    forall i :: 0 <= i < |dists| ==> dists[i] == 0.0
  }

  predicate NotNegative(dists: seq<real>) {
    forall i :: 0 <= i < |dists| ==> dists[i] >= 0.0
  }

  lemma {:induction false} VisitAllWhenFilled(b: Beam, batch: seq<nat>, dists: seq<real>, ef: nat)
    requires Filled(b, ef) && NotNegative(dists)
    ensures VisitAll(b, batch, dists, ef).best == b.best
  {
    if batch != [] { VisitAllWhenFilled(b, batch[..|batch| - 1], dists, ef); }
  }

  lemma {:induction false} BatchScanWhenFilled(b: Beam, nodes: seq<nat>, width: nat, dists: seq<real>, ef: nat)
    requires Filled(b, ef) && NotNegative(dists) && width >= 1
    ensures BatchScan(b, nodes, width, dists, ef).best == b.best
    decreases |nodes|
  {
    if |nodes| <= width {
      VisitAllWhenFilled(b, FreshOnes(b, nodes, dists), dists, ef);
    } else {
      VisitAllWhenFilled(b, FreshOnes(b, nodes[..width], dists), dists, ef);
      BatchScanWhenFilled(BatchVisit(b, nodes[..width], dists, ef), nodes[width..], width, dists, ef);
    }
  }

  lemma {:induction false} BatchRunWhenFilled(b: Beam, e: Expansion, width: nat, dists: seq<real>, ef: nat)
    requires Filled(b, ef) && NotNegative(dists) && width >= 1
    ensures BatchRun(b, e, width, dists, ef).best == b.best
    decreases |Unvisited(b, dists)|, |b.frontier|
  {
    if b.frontier == [] || Settled(b, ef) {
    } else {
      var popped := b.(frontier := b.frontier[1..]);
      BatchScanWhenFilled(popped, Candidates(e, popped, b.frontier[0].id), width, dists, ef);
      BatchExpandWork(b, e, width, dists, ef);
      BatchRunWhenFilled(BatchExpand(b, e, width, dists, ef), e, width, dists, ef);
    }
  }

  lemma {:induction false} VisitAllAppend(b: Beam, xs: seq<nat>, ys: seq<nat>, dists: seq<real>, ef: nat)
    requires ef >= 1
    ensures VisitAll(b, xs + ys, dists, ef) == VisitAll(VisitAll(b, xs, dists, ef), ys, dists, ef)
  {
    if ys == [] {
      assert xs + ys == xs;
    } else {
      var last := |ys| - 1;
      assert (xs + ys)[..|xs + ys| - 1] == xs + ys[..last];
      VisitAllAppend(b, xs, ys[..last], dists, ef);
    }
  }

  lemma {:induction false} FreshOnesAppend(b: Beam, xs: seq<nat>, ys: seq<nat>, dists: seq<real>)
    ensures FreshOnes(b, xs + ys, dists) == FreshOnes(b, xs, dists) + FreshOnes(b, ys, dists)
  {
    if ys == [] {
      assert xs + ys == xs;
    } else {
      var last := |ys| - 1;
      assert (xs + ys)[..|xs + ys| - 1] == xs + ys[..last];
      FreshOnesAppend(b, xs, ys[..last], dists);
    }
  }

  /** Estimates that rank one node before all others. */
  function Preferring(v: nat, size: nat): (e: seq<real>)
    ensures |e| == size && forall i :: 0 <= i < size ==> e[i] == if i == v then 0.0 else 1.0
  {
    seq(size, i => if i == v then 0.0 else 1.0)
  }

  lemma {:induction false} EstimatedTwice(b: Beam, list: seq<nat>, i: nat, j: nat, estimates: seq<real>)
    requires i < j < |list| && list[i] == list[j] && list[i] < |estimates| && list[i] !in b.visited
    ensures multiset(Estimated(b, list, estimates))[Entry(estimates, list[i])] >= 2
  {
    var last := |list| - 1;
    if j < last {
      EstimatedTwice(b, list[..last], i, j, estimates);
    } else {
      EstimatedFrom(b, list[..last], estimates);
      assert list[..last][i] == list[i];
      assert Entry(estimates, list[i]) in Estimated(b, list[..last], estimates);
    }
  }

  /** An entry that occurs twice and comes before all others is the first two of the sorted list. */
  lemma TwiceInFront(s: seq<Scored>, x: Scored)
    requires Ascending(s) && multiset(s)[x] >= 2
    requires forall y :: y in s && y != x ==> Before(x, y)
    ensures |s| >= 2 && s[0] == x && s[1] == x
  {
    assert s == [s[0]] + s[1..];
    assert x in s[1..];
    var j :| 0 <= j < |s[1..]| && s[1..][j] == x;
    assert s[j + 1] == x;
    assert AtMost(s[0], s[j + 1]) && s[0] in s && s[1] in s;
  }

  /** A neighbour listed twice is a candidate twice, ahead of the others when it is estimated to be nearest. */
  lemma PreferredTwice(b: Beam, adj: seq<seq<nat>>, u: nat, i: nat, j: nat, k: nat)
    requires u < |adj| && i < j < |adj[u]| && adj[u][i] == adj[u][j] < |adj| && adj[u][i] !in b.visited
    requires |b.best| < k
    ensures var v, nodes := adj[u][i], Candidates(PqRanked(adj, Preferring(adj[u][i], |adj|), k), b, u);
      |nodes| >= 2 && nodes[0] == v && nodes[1] == v
  {
    var v := adj[u][i];
    var estimates := Preferring(v, |adj|);
    var est := Estimated(b, adj[u], estimates);
    EstimatedFrom(b, adj[u], estimates);
    EstimatedTwice(b, adj[u], i, j, estimates);
    SortContents(est);
    TwiceInFront(Sort(est), Entry(estimates, v));
  }

  lemma FreshTwice(b: Beam, window: seq<nat>, v: nat, dists: seq<real>)
    requires |window| >= 2 && window[0] == v && window[1] == v && IsFresh(b, v, dists)
    ensures FreshOnes(b, window, dists) == [v, v] + FreshOnes(b, window[2..], dists)
  {
    assert window == [v, v] + window[2..];
    FreshOnesAppend(b, [v, v], window[2..], dists);
    assert [v, v][..1] == [v] && [v][..0] == [];
    assert FreshOnes(b, [v], dists) == [v];
  }

  /** A node and another that was taken twice, in (distance, id) order. */
  function Pair(u: nat, v: nat): (ids: seq<nat>)
    ensures |ids| == 3
  {
    if u < v then [u, v, v] else [v, v, u]
  }

  /** Two visits of a node take it into the results twice. */
  lemma TakenTwice(b: Beam, u: nat, v: nat, dists: seq<real>)
    requires u != v && u < |dists| && v < |dists| && AllAtZero(dists) && b.best == [Entry(dists, u)]
    ensures var c := VisitAll(b, [v, v], dists, 3);
      Filled(c, 3) && Ids(c.best) == Pair(u, v)
  {
    var x, y := Entry(dists, u), Entry(dists, v);
    assert [v, v][..1] == [v] && [v][..0] == [];
    assert VisitAll(b, [v], dists, 3) == Visit(b, y, 3);
    assert [x][1..] == [] && [x, y][1..] == [y] && [y, x][1..] == [x] && [y][1..] == [];
    if u < v {
      assert Insert([x], y) == [x, y];
      assert Insert([y], y) == [y, y];
      assert Insert([x, y], y) == [x, y, y];
    } else {
      assert Insert([x], y) == [y, x];
      assert Insert([y, x], y) == [y, y, x];
    }
  }

  /** A batch that starts with the same unvisited node twice takes it into the results twice. */
  lemma BatchTakesTwice(b: Beam, window: seq<nat>, u: nat, v: nat, dists: seq<real>)
    requires u != v && u < |dists| && v < |dists| && AllAtZero(dists)
    requires b.best == [Entry(dists, u)] && v !in b.visited
    requires |window| >= 2 && window[0] == v && window[1] == v
    ensures var c := BatchVisit(b, window, dists, 3);
      Filled(c, 3) && Ids(c.best) == Pair(u, v)
  {
    var rest := FreshOnes(b, window[2..], dists);
    FreshTwice(b, window, v, dists);
    VisitAllAppend(b, [v, v], rest, dists, 3);
    TakenTwice(b, u, v, dists);
    VisitAllWhenFilled(VisitAll(b, [v, v], dists, 3), rest, dists, 3);
  }

  lemma BatchScanTakesTwice(b: Beam, nodes: seq<nat>, width: nat, u: nat, v: nat, dists: seq<real>)
    requires u != v && u < |dists| && v < |dists| && AllAtZero(dists) && width >= 2
    requires b.best == [Entry(dists, u)] && v !in b.visited
    requires |nodes| >= 2 && nodes[0] == v && nodes[1] == v
    ensures var c := BatchScan(b, nodes, width, dists, 3);
      Filled(c, 3) && Ids(c.best) == Pair(u, v)
  {
    if |nodes| <= width {
      BatchTakesTwice(b, nodes, u, v, dists);
    } else {
      BatchTakesTwice(b, nodes[..width], u, v, dists);
      BatchScanWhenFilled(BatchVisit(b, nodes[..width], dists, 3), nodes[width..], width, dists, 3);
    }
  }

  /** A node that is named twice among the neighbours of another makes some search in batches of
      more than one list it twice. */
  lemma AnswerListsTwice(adj: seq<seq<nat>>, u: nat, i: nat, j: nat, width: nat, dists: seq<real>)
    requires u < |adj| == |dists| && i < j < |adj[u]| && adj[u][i] == adj[u][j] < |adj| && adj[u][i] != u
    requires width >= 2 && AllAtZero(dists)
    ensures var v := adj[u][i];
      BatchSearch(u, PqRanked(adj, Preferring(v, |adj|), 3), width, dists, 3, 3) == Pair(u, v)
  {
    var v := adj[u][i];
    var e, start := PqRanked(adj, Preferring(v, |adj|), 3), Start(u, dists);
    var popped := start.(frontier := start.frontier[1..]);
    PreferredTwice(popped, adj, u, i, j, 3);
    BatchScanTakesTwice(popped, Candidates(e, popped, u), width, u, v, dists);
    assert !Settled(start, 3);
    BatchRunWhenFilled(BatchExpand(start, e, width, dists, 3), e, width, dists, 3);
  }

  /** Searching in batches gives the answer of searching one node at a time, for every entry, estimates,
      distances, ef and k. */
  ghost predicate SameAnswers(adj: seq<seq<nat>>, width: nat)
    requires width >= 1
  {
    forall entry: nat, estimates: seq<real>, dists: seq<real>, ef: nat, k: nat ::
      ef >= 1 && entry < |dists| == |adj| == |estimates| ==>
        BatchSearch(entry, PqRanked(adj, estimates, k), width, dists, ef, k)
          == Search(entry, PqRanked(adj, estimates, k), dists, ef, k)
  }

  /** For which graphs the beam width does not matter: with batches of one for all of them, with larger
      ones exactly for those in which no list names a node other than its owner twice. */
  lemma BatchingExactly(adj: seq<seq<nat>>, width: nat)
    requires width >= 1
    ensures SameAnswers(adj, width) <==> width == 1 || ListsDistinct(adj)
  {
    if width == 1 || ListsDistinct(adj) {
      forall entry: nat, estimates: seq<real>, dists: seq<real>, ef: nat, k: nat
        | ef >= 1 && entry < |dists| == |adj| == |estimates|
        ensures BatchSearch(entry, PqRanked(adj, estimates, k), width, dists, ef, k)
             == Search(entry, PqRanked(adj, estimates, k), dists, ef, k)
      {
        SearchesAgree(entry, adj, estimates, width, dists, ef, k);
      }
    } else {
      var u :| 0 <= u < |adj| && !NoneTwice(adj[u], {u}, |adj|);
      var i, j :| 0 <= i < j < |adj[u]| && adj[u][i] == adj[u][j] && adj[u][i] !in {u} && adj[u][i] < |adj|;
      var v, dists := adj[u][i], seq(|adj|, _ => 0.0);
      var e := PqRanked(adj, Preferring(v, |adj|), 3);
      AnswerListsTwice(adj, u, i, j, width, dists);
      SearchListsOnce(u, e, dists, 3, 3);
      assert BatchSearch(u, e, width, dists, 3, 3) != Search(u, e, dists, 3, 3) by {
        assert Pair(u, v)[1] == v && (Pair(u, v)[0] == v || Pair(u, v)[2] == v);
      }
    }
  }

  /** A search that visits one node at a time lists no node twice. */
  lemma SearchListsOnce(entry: nat, e: Expansion, dists: seq<real>, ef: nat, k: nat)
    requires ef >= 1 && entry < |dists|
    ensures NoRepeats(Search(entry, e, dists, ef, k))
  {
    StartSound(entry, dists, ef);
    RunSound(Start(entry, dists), e, dists, ef);
    var best, answer := Run(Start(entry, dists), e, dists, ef).best, Search(entry, e, dists, ef, k);
    forall i, j | 0 <= i < j < |answer| ensures answer[i] != answer[j] {
      assert Before(best[i], best[j]) && best[i] in best && best[j] in best;
    }
  }

  // ---------------------------------------------------------------------------------------
  // The smallest graph with a repeated neighbour
  // ---------------------------------------------------------------------------------------

  lemma {:induction false} NothingFresh(b: Beam, nodes: seq<nat>, dists: seq<real>, ef: nat)
    requires ef >= 1 && Unvisited(b, dists) == {}
    ensures FreshOnes(b, nodes, dists) == [] && Scan(b, nodes, dists, ef) == b
  {
    if nodes != [] {
      var n := nodes[|nodes| - 1];
      NothingFresh(b, nodes[..|nodes| - 1], dists, ef);
      assert n < |dists| && n !in b.visited ==> n in Unvisited(b, dists);
    }
  }

  lemma {:induction false} NothingToScan(b: Beam, nodes: seq<nat>, width: nat, dists: seq<real>, ef: nat)
    requires ef >= 1 && width >= 1 && Unvisited(b, dists) == {}
    ensures BatchScan(b, nodes, width, dists, ef) == b
    decreases |nodes|
  {
    if |nodes| <= width {
      NothingFresh(b, nodes, dists, ef);
    } else {
      NothingFresh(b, nodes[..width], dists, ef);
      NothingToScan(b, nodes[width..], width, dists, ef);
    }
  }

  /** Once every node is visited, the results stay as they are. */
  lemma {:induction false} BestIsFinal(b: Beam, e: Expansion, width: nat, dists: seq<real>, ef: nat)
    requires ef >= 1 && width >= 1 && Unvisited(b, dists) == {}
    ensures BatchRun(b, e, width, dists, ef).best == b.best && Run(b, e, dists, ef).best == b.best
    decreases |b.frontier|
  {
    if b.frontier == [] || Settled(b, ef) {
    } else {
      var popped := b.(frontier := b.frontier[1..]);
      assert Unvisited(popped, dists) == Unvisited(b, dists);
      var nodes := Candidates(e, popped, b.frontier[0].id);
      NothingFresh(popped, nodes, dists, ef);
      NothingToScan(popped, nodes, width, dists, ef);
      BestIsFinal(popped, e, width, dists, ef);
    }
  }

  lemma SortPair(y: Scored)
    ensures Sort([y, y]) == [y, y]
  {
    assert [y, y][..1] == [y] && [y][..0] == [] && [y][1..] == [];
    assert Insert([], y) == [y];
    assert Sort([y]) == [y];
    assert Insert([y], y) == [y] + Insert([], y);
  }

  lemma EstimatedPair(b: Beam, estimates: seq<real>)
    requires |estimates| == 2 && b.visited == {0}
    ensures Estimated(b, [1, 1], estimates) == [Entry(estimates, 1), Entry(estimates, 1)]
  {
    assert [1, 1][..1] == [1] && [1][..0] == [];
    assert Estimated(b, [1], estimates) == [Entry(estimates, 1)];
  }

  lemma PairedCandidates(b: Beam, estimates: seq<real>, k: nat)
    requires |estimates| == 2 && b.visited == {0} && |b.best| < k
    ensures Candidates(PqRanked([[1, 1], [0]], estimates, k), b, 0) == [1, 1]
  {
    hide Sort;
    hide Estimated;
    hide UpperBound;
    EstimatedPair(b, estimates);
    SortPair(Entry(estimates, 1));
  }

  lemma FreshPair(b: Beam, dists: seq<real>)
    requires |dists| == 2 && b.visited == {0}
    ensures FreshOnes(b, [1, 1], dists) == [1, 1]
  {
    assert [1, 1][..1] == [1] && [1][..0] == [];
    assert FreshOnes(b, [1], dists) == [1];
  }

  /** A batch of the same node twice visits it twice, a scan once. */
  lemma PairedVisits(b: Beam, width: nat, dists: seq<real>, ef: nat)
    requires |dists| == 2 && b.visited == {0} && width >= 2 && ef >= 1
    ensures BatchScan(b, [1, 1], width, dists, ef) == Visit(Visit(b, Entry(dists, 1), ef), Entry(dists, 1), ef)
    ensures Scan(b, [1, 1], dists, ef) == Visit(b, Entry(dists, 1), ef)
  {
    hide FreshOnes;
    hide Visit;
    FreshPair(b, dists);
    assert [1, 1][..1] == [1] && [1][..0] == [];
    var once := Visit(b, Entry(dists, 1), ef);
    assert VisitAll(b, [1], dists, ef) == once;
    assert Scan(b, [1], dists, ef) == once;
    assert 1 in once.visited by { VisitMarks(b, Entry(dists, 1), ef); }
  }

  lemma VisitMarks(b: Beam, x: Scored, ef: nat)
    requires ef >= 1
    ensures Visit(b, x, ef).visited == b.visited + {x.id}
  {
  }

  /** Two nodes of which the entry point names the other twice: with batches of more than one, the
      other node is visited twice; visiting one node at a time, once. */
  lemma PairedSearch(estimates: seq<real>, dists: seq<real>, width: nat, ef: nat, k: nat)
    requires |estimates| == |dists| == 2 && width >= 2 && ef >= 2 && k >= 2
    ensures var e, y := PqRanked([[1, 1], [0]], estimates, k), Entry(dists, 1);
      var once := Visit(Beam([], [Entry(dists, 0)], {0}), y, ef);
      && BatchRun(Start(0, dists), e, width, dists, ef).best == Visit(once, y, ef).best
      && Run(Start(0, dists), e, dists, ef).best == once.best
  {
    hide Candidates;
    hide BatchScan;
    hide Scan;
    hide Insert;
    var e, start, y := PqRanked([[1, 1], [0]], estimates, k), Start(0, dists), Entry(dists, 1);
    var popped := start.(frontier := start.frontier[1..]);
    assert popped == Beam([], [Entry(dists, 0)], {0});
    PairedCandidates(popped, estimates, k);
    PairedVisits(popped, width, dists, ef);
    var once := Visit(popped, y, ef);
    var twice := Visit(once, y, ef);
    assert once.visited == {0, 1} && twice.visited == {0, 1};
    assert Unvisited(once, dists) == {} && Unvisited(twice, dists) == {};
    BestIsFinal(once, e, width, dists, ef);
    BestIsFinal(twice, e, width, dists, ef);
  }

  /** The nearer of two nodes, taken twice. */
  lemma NearerTwice(x: Scored, y: Scored, ef: nat)
    requires ef >= 2 && y.dist < x.dist
    ensures var once := Visit(Beam([], [x], {x.id}), y, ef);
      once.best == [y, x] && Visit(once, y, ef).best == if ef == 2 then [y, y] else [y, y, x]
  {
    assert [x][1..] == [] && [y, x][1..] == [x];
    assert Insert([x], y) == [y, x];
    assert Insert([y, x], y) == [y, y, x];
  }

  /** A query closer to node 1 gets it twice, and does not get node 0 at all. */
  lemma RepeatedNeighbourCounterexample(estimates: seq<real>, dists: seq<real>, width: nat, ef: nat)
    requires |estimates| == |dists| == 2 && width >= 2 && ef >= 2 && dists[1] < dists[0]
    ensures BatchSearch(0, PqRanked([[1, 1], [0]], estimates, 2), width, dists, ef, 2) == [1, 1]
    ensures Search(0, PqRanked([[1, 1], [0]], estimates, 2), dists, ef, 2) == [1, 0]
  {
    hide Visit;
    hide Run;
    hide BatchRun;
    PairedSearch(estimates, dists, width, ef, 2);
    NearerTwice(Entry(dists, 0), Entry(dists, 1), ef);
  }
}
