/** The on-disk search. */
module DiskSearch {
  // Neighbours are ranked by PQ estimates and visited in batches.

  import opened Guards
  import opened Bytes
  import opened Vectors
  import opened Ranking
  import opened BestFirst
  import opened Batches
  import opened VisitedBitmaps
  import opened FlatGraphs
  import opened GraphSearch
  import opened ProductQuantizer
  import opened PqEncoders
  import opened DiskRecords
  import opened BufferPool
  import opened DiskReaders

  // ---------------------------------------------------------------------------------------
  // Distances
  // ---------------------------------------------------------------------------------------

  /** The PQ estimates of all nodes. */
  function Estimates(query: Vector, codes: seq<seq<Code>>, books: Codebooks, k: nat, sd: nat): (e: seq<real>)
    requires HasShape(books, k, sd) && |query| == |books| * sd
      && forall n :: 0 <= n < |codes| ==> ValidCodes(codes[n], books, k)
    ensures |e| == |codes|
    ensures forall n :: 0 <= n < |e| ==> e[n] == L2(query, Decoded(codes[n], books, k, sd), |query|)
  {
    seq(|codes|, n requires 0 <= n < |codes| => L2(query, Decoded(codes[n], books, k, sd), |query|))
  }

  /** The distances of the records on disk. */
  function DiskDistances(query: Vector, disk: map<nat, Page>, n: nat): (d: seq<real>)
    requires HoldsRecords(disk, n) && |query| <= DEFAULT_DIMENSION
    ensures |d| == n
    ensures forall i :: 0 <= i < n ==> d[i] == L2(query, DiskVector(disk, i), |query|)
  {
    seq(n, i requires 0 <= i < n => L2(query, DiskVector(disk, i), |query|))
  }

  /** Where exact distances come from: the records on disk when a reader is open, else memory. */
  ghost function ExactDistances(query: Vector, data: seq<Vector>, reader: DiskIndexReader?): (d: seq<real>)
    requires reader == null ==> Covers(data, query)
    requires reader != null ==> HoldsRecords(reader.disk, |data|) && |query| <= DEFAULT_DIMENSION
    ensures |d| == |data|
  {
    if reader == null then Distances(query, data) else DiskDistances(query, reader.disk, |data|)
  }

  ghost function ReaderObjects(reader: DiskIndexReader?): set<object> {
    if reader == null then {} else reader.Objects()
  }

  ghost predicate ReadyReader(reader: DiskIndexReader?, query: Vector, n: nat)
    reads if reader == null then {} else {reader} + reader.Objects()
  {
    reader != null ==> reader.Valid() && reader.numVectors == n && |query| <= DEFAULT_DIMENSION
  }

  /** The reader's pool shares nothing with the bitmap. */
  ghost predicate Apart(visited: VisitedBitmap, reader: DiskIndexReader?)
    reads visited
  {
    reader != null ==> (visited as object) !in reader.Objects() && (visited.bitmap as object) !in reader.Objects()
  }

  method ExactDistance(query: Vector, data: seq<Vector>, reader: DiskIndexReader?, n: nat) returns (d: real)
    requires Covers(data, query) && n < |data| && ReadyReader(reader, query, |data|)
    modifies ReaderObjects(reader)
    ensures ReadyReader(reader, query, |data|)
    ensures d == ExactDistances(query, data, reader)[n]
  {
    if reader != null {
      d := reader.ComputeDistanceDirect(n, query);
    } else {
      d := L2(query, data[n], |query|);
    }
  }

  // ---------------------------------------------------------------------------------------
  // The search
  // ---------------------------------------------------------------------------------------

  lemma NothingEstimated(b: Beam, nodes: seq<nat>, estimates: seq<real>)
    requires nodes == []
    ensures Estimated(b, nodes, estimates) == []
  {
  }

  lemma EstimatedNext(b: Beam, nodes: seq<nat>, i: nat, estimates: seq<real>)
    requires i < |nodes|
    ensures Estimated(b, nodes[..i + 1], estimates) == Estimated(b, nodes[..i], estimates)
      + if nodes[i] < |estimates| && nodes[i] !in b.visited then [Entry(estimates, nodes[i])] else []
  {
    assert nodes[..i + 1][..i] == nodes[..i];
  }

  /** The unvisited neighbours of a node with their PQ estimates. */
  method EstimateNeighbours(query: Vector, graph: FlatGraphIndex, node: nat, codes: seq<seq<Code>>, encoder: PQEncoder,
                            table: PQDistanceTable, visited: VisitedBitmap, ghost beam: Beam)
    returns (filtered: seq<Scored>)
    requires graph.Valid() && node < graph.numNodes && |codes| == graph.numNodes
    requires visited.Valid() && visited.size == graph.numNodes && beam.visited == visited.Contents()
    requires encoder.Valid() && |query| == encoder.m * encoder.subDim
    requires table.TableFor(query, encoder.codebooks, encoder.k, encoder.subDim)
    requires forall n :: 0 <= n < |codes| ==> ValidCodes(codes[n], encoder.codebooks, encoder.k)
    ensures filtered
      == Estimated(beam, graph.Adj()[node], Estimates(query, codes, encoder.codebooks, encoder.k, encoder.subDim))
  {
    hide ListsOf;
    hide ValidCodes;
    hide RowsFit;
    hide Estimated;
    NothingEstimated(beam, graph.Adj()[node][..0],
                     Estimates(query, codes, encoder.codebooks, encoder.k, encoder.subDim));
    filtered := [];
    ghost var list := graph.Adj()[node];
    ghost var estimates := Estimates(query, codes, encoder.codebooks, encoder.k, encoder.subDim);
    var count := graph.GetNumNeighbors(node);
    for i := 0 to count
      invariant filtered == Estimated(beam, list[..i], estimates)
    {
      EstimatedNext(beam, list, i, estimates);
      var n := graph.GetNeighbor(node, i);
      var seen := visited.Test(n);
      if !seen {
        var pqDist := table.ComputeDistance(codes[n], query, encoder);
        filtered := filtered + [Scored(pqDist, n)];
      }
    }
    assert list[..count] == list;
  }

  lemma FreshOnesNext(b: Beam, nodes: seq<nat>, i: nat, dists: seq<real>)
    requires i < |nodes|
    ensures FreshOnes(b, nodes[..i + 1], dists)
         == FreshOnes(b, nodes[..i], dists) + if IsFresh(b, nodes[i], dists) then [nodes[i]] else []
  {
    assert nodes[..i + 1][..i] == nodes[..i];
  }

  /** The unvisited nodes of one batch. */
  method CollectBatch(ids: seq<nat>, from: nat, to: nat, visited: VisitedBitmap, ghost beam: Beam,
                      ghost dists: seq<real>)
    returns (batch: seq<nat>)
    requires from <= to <= |ids| && visited.Valid() && visited.size == |dists| && beam.visited == visited.Contents()
    ensures batch == FreshOnes(beam, ids[from..to], dists)
  {
    batch := [];
    ghost var part := ids[from..to];
    for j := from to to
      invariant batch == FreshOnes(beam, part[..j - from], dists)
    {
      FreshOnesNext(beam, part, j - from, dists);
      assert part[j - from] == ids[j];
      var seen := visited.Test(ids[j]);
      if !seen {
        batch := batch + [ids[j]];
      }
    }
    assert part[..to - from] == part;
  }

  /** Visits one node of a batch: no second look at the bitmap is taken. */
  method VisitNode(query: Vector, data: seq<Vector>, reader: DiskIndexReader?, n: nat, ef: nat,
                   candidates0: seq<Scored>, results0: seq<Scored>, visited: VisitedBitmap)
    returns (candidates: seq<Scored>, results: seq<Scored>)
    requires ef >= 1 && Covers(data, query) && ReadyReader(reader, query, |data|) && results0 != []
    requires visited.Valid() && visited.size == |data| && n < |data|
    requires Apart(visited, reader)
    modifies visited.bitmap, ReaderObjects(reader)
    ensures visited.Valid() && ReadyReader(reader, query, |data|) && results != []
    ensures BeamOf(candidates, results, visited)
         == Visit(old(BeamOf(candidates0, results0, visited)), Entry(ExactDistances(query, data, reader), n), ef)
  {
    candidates, results := candidates0, results0;
    visited.Set(n);
    ghost var seen := visited.Contents();
    var exactDist := ExactDistance(query, data, reader, n);
    assert visited.Contents() == seen;
    assert exactDist >= 0.0;
    var fd := results[|results| - 1].dist;
    if exactDist >= 0.0 && (|results| < ef || exactDist < fd) {
      candidates := Insert(candidates, Scored(exactDist, n));
      results := PopToSize(Insert(results, Scored(exactDist, n)), ef);
    }
  }

  /** Computes the exact distances of a batch and offers each node to both heaps. */
  method ProcessBatch(query: Vector, data: seq<Vector>, reader: DiskIndexReader?, batch: seq<nat>, ef: nat,
                      candidates0: seq<Scored>, results0: seq<Scored>, visited: VisitedBitmap)
    returns (candidates: seq<Scored>, results: seq<Scored>)
    requires ef >= 1 && Covers(data, query) && ReadyReader(reader, query, |data|) && results0 != []
    requires visited.Valid() && visited.size == |data| && forall i :: 0 <= i < |batch| ==> batch[i] < |data|
    requires Apart(visited, reader)
    modifies visited.bitmap, ReaderObjects(reader)
    ensures visited.Valid() && ReadyReader(reader, query, |data|) && results != []
    ensures BeamOf(candidates, results, visited)
         == VisitAll(old(BeamOf(candidates0, results0, visited)), batch, ExactDistances(query, data, reader), ef)
  {
    candidates, results := candidates0, results0;
    ghost var beam, dists := BeamOf(candidates, results, visited), ExactDistances(query, data, reader);
    for j := 0 to |batch|
      invariant visited.Valid() && ReadyReader(reader, query, |data|) && results != []
      invariant BeamOf(candidates, results, visited) == VisitAll(beam, batch[..j], dists, ef)
    {
      assert batch[..j + 1][..j] == batch[..j];
      candidates, results := VisitNode(query, data, reader, batch[j], ef, candidates, results, visited);
    }
    assert batch[..|batch|] == batch;
  }

  /** Collects one batch and, unless it is empty, processes it. */
  method ProcessPart(query: Vector, data: seq<Vector>, reader: DiskIndexReader?, ids: seq<nat>, from: nat, to: nat,
                     ef: nat,
                     candidates0: seq<Scored>, results0: seq<Scored>, visited: VisitedBitmap)
    returns (candidates: seq<Scored>, results: seq<Scored>)
    requires ef >= 1 && Covers(data, query) && ReadyReader(reader, query, |data|) && results0 != []
    requires visited.Valid() && visited.size == |data| && from <= to <= |ids|
    requires Apart(visited, reader)
    modifies visited.bitmap, ReaderObjects(reader)
    ensures visited.Valid() && ReadyReader(reader, query, |data|) && results != []
    ensures BeamOf(candidates, results, visited)
         == BatchVisit(old(BeamOf(candidates0, results0, visited)), ids[from..to],
                       ExactDistances(query, data, reader), ef)
  {
    candidates, results := candidates0, results0;
    ghost var beam, dists := BeamOf(candidates, results, visited), ExactDistances(query, data, reader);
    var batch := CollectBatch(ids, from, to, visited, beam, dists);
    FreshOnesFrom(beam, ids[from..to], dists);
    assert forall i :: 0 <= i < |batch| ==> batch[i] in batch;
    if batch != [] {
      candidates, results := ProcessBatch(query, data, reader, batch, ef, candidates, results, visited);
    }
  }

  /** Visits the ranked candidates a batch at a time. */
  method ProcessInBatches(query: Vector, data: seq<Vector>, reader: DiskIndexReader?, ids: seq<nat>, beamWidth: nat,
                          ef: nat,
                          candidates0: seq<Scored>, results0: seq<Scored>, visited: VisitedBitmap)
    returns (candidates: seq<Scored>, results: seq<Scored>)
    requires ef >= 1 && beamWidth >= 1 && Covers(data, query) && ReadyReader(reader, query, |data|) && results0 != []
    requires visited.Valid() && visited.size == |data|
    requires Apart(visited, reader)
    modifies visited.bitmap, ReaderObjects(reader)
    ensures visited.Valid() && ReadyReader(reader, query, |data|) && results != []
    ensures BeamOf(candidates, results, visited)
         == BatchScan(old(BeamOf(candidates0, results0, visited)), ids, beamWidth,
                      ExactDistances(query, data, reader), ef)
  {
    hide BatchScan;
    hide ExactDistances;
    hide DiskDistances;
    candidates, results := candidates0, results0;
    ghost var dists := ExactDistances(query, data, reader);
    ghost var finish := BatchScan(BeamOf(candidates, results, visited), ids, beamWidth, dists, ef);
    assert ids[0..] == ids;
    var processed := 0;
    while processed < |ids|
      invariant processed <= |ids| && visited.Valid() && ReadyReader(reader, query, |data|) && results != []
      invariant BatchScan(BeamOf(candidates, results, visited), ids[processed..], beamWidth, dists, ef) == finish
    {
      var batchEnd := if processed + beamWidth < |ids| then processed + beamWidth else |ids|;
      BatchScanStep(BeamOf(candidates, results, visited), ids, processed, batchEnd, beamWidth, dists, ef);
      candidates, results := ProcessPart(query, data, reader,
                                         ids, processed, batchEnd, ef, candidates, results, visited);
      processed := batchEnd;
    }
    BatchScanNone(BeamOf(candidates, results, visited), ids[processed..], beamWidth, dists, ef);
  }

  /** What the ranking of neighbours needs: a trained encoder and valid codes of all nodes. */
  ghost predicate Rankable(query: Vector, graph: FlatGraphIndex, codes: seq<seq<Code>>, encoder: PQEncoder)
    reads graph, encoder
  {
    && graph.Valid() && |codes| == graph.numNodes
    && encoder.Valid() && encoder.trained && |query| == encoder.m * encoder.subDim
    && forall n :: 0 <= n < |codes| ==> ValidCodes(codes[n], encoder.codebooks, encoder.k)
  }

  /** The same, for callers that only pass it on. */
  ghost predicate RankReady(query: Vector, graph: FlatGraphIndex, codes: seq<seq<Code>>, encoder: PQEncoder)
    reads graph, encoder
  {
    forall b {:trigger LookInside(b)} :: LookInside(b) ==> Rankable(query, graph, codes, encoder)
  }

  /** The table holds the query's distances. */
  ghost predicate TableReady(query: Vector, encoder: PQEncoder, table: PQDistanceTable)
    reads encoder, table
  {
    forall b {:trigger LookInside(b)} :: LookInside(b) ==>
      && encoder.Valid() && |query| == encoder.m * encoder.subDim
      && table.TableFor(query, encoder.codebooks, encoder.k, encoder.subDim)
  }

  /** The ranking the graph, the codes and the query determine. */
  ghost function RankOf(query: Vector, k: nat, graph: FlatGraphIndex, codes: seq<seq<Code>>,
                        encoder: PQEncoder): Expansion
    requires RankReady(query, graph, codes, encoder)
    reads graph, encoder
  {
    assert LookInside(true);
    PqRanked(graph.Adj(), Estimates(query, codes, encoder.codebooks, encoder.k, encoder.subDim), k)
  }

  /** With k results, drops the candidates estimated to be far beyond the worst of them. */
  method CutAtThreshold(sorted: seq<Scored>, results: seq<Scored>, k: nat) returns (filtered: seq<Scored>)
    requires results != []
    ensures filtered == CutFar(sorted, results, k)
  {
    filtered := sorted;
    if |results| >= k {
      var pqThreshold := results[|results| - 1].dist * 4.0;
      var at := UpperBound(filtered, pqThreshold);
      if at != |filtered| && at >= k {
        filtered := filtered[..at];
      }
    }
  }

  /** The popped node's neighbours in the order they are to be visited, cut off when far. */
  method RankNeighbours(query: Vector, k: nat, graph: FlatGraphIndex, codes: seq<seq<Code>>, encoder: PQEncoder,
                        table: PQDistanceTable, node: nat, results: seq<Scored>,
                        visited: VisitedBitmap, ghost beam: Beam)
    returns (ids: seq<nat>)
    requires RankReady(query, graph, codes, encoder) && node < graph.numNodes
    requires TableReady(query, encoder, table)
    requires visited.Valid() && visited.size == graph.numNodes && beam.visited == visited.Contents()
    requires beam.best == results != []
    ensures ids == Candidates(RankOf(query, k, graph, codes, encoder), beam, node)
  {
    hide Sort;
    hide CutFar;
    hide Estimated;
    hide RowsFit;
    hide ListsOf;
    hide ValidCodes;
    assert LookInside(true);
    var filtered := EstimateNeighbours(query, graph, node, codes, encoder, table, visited, beam);
    filtered := CutAtThreshold(Sort(filtered), results, k);
    ids := Ids(filtered);
  }

  /** The graph, the encoder and the table are not part of the reader's pool. */
  ghost predicate Uninvolved(graph: FlatGraphIndex, encoder: PQEncoder, table: PQDistanceTable,
                             reader: DiskIndexReader?) {
    reader != null ==>
      && (graph as object) !in reader.Objects() && (encoder as object) !in reader.Objects()
      && (table as object) !in reader.Objects()
  }

  /** One turn of the outer loop. */
  method ExpandNode(query: Vector, k: nat, ef: nat, beamWidth: nat, graph: FlatGraphIndex, codes: seq<seq<Code>>,
                    encoder: PQEncoder, table: PQDistanceTable, data: seq<Vector>, reader: DiskIndexReader?, node: nat,
                    candidates0: seq<Scored>, results0: seq<Scored>, visited: VisitedBitmap)
    returns (candidates: seq<Scored>, results: seq<Scored>)
    requires ef >= 1 && beamWidth >= 1 && results0 != [] && node < graph.numNodes == |data|
    requires RankReady(query, graph, codes, encoder) && TableReady(query, encoder, table)
    requires Covers(data, query) && ReadyReader(reader, query, |data|)
    requires visited.Valid() && visited.size == graph.numNodes
    requires Apart(visited, reader) && Uninvolved(graph, encoder, table, reader)
    modifies visited.bitmap, ReaderObjects(reader)
    ensures visited.Valid() && ReadyReader(reader, query, |data|) && results != []
    ensures RankReady(query, graph, codes, encoder) && TableReady(query, encoder, table)
    ensures RankOf(query, k, graph, codes, encoder) == old(RankOf(query, k, graph, codes, encoder))
    ensures BeamOf(candidates, results, visited)
         == old(BatchScan(BeamOf(candidates0, results0, visited),
                          Candidates(RankOf(query, k, graph, codes, encoder),
                                     BeamOf(candidates0, results0, visited), node),
                          beamWidth, ExactDistances(query, data, reader), ef))
  {
    hide RankOf;
    hide Candidates;
    hide BatchScan;
    ghost var beam := BeamOf(candidates0, results0, visited);
    var ids := RankNeighbours(query, k, graph, codes, encoder, table, node, results0, visited, beam);
    candidates, results := ProcessInBatches(query, data, reader, ids, beamWidth, ef, candidates0, results0, visited);
  }

  /** The outer loop. */
  method DiskLoop(query: Vector, k: nat, ef: nat, beamWidth: nat, graph: FlatGraphIndex, codes: seq<seq<Code>>,
                  encoder: PQEncoder, table: PQDistanceTable, data: seq<Vector>, reader: DiskIndexReader?,
                  candidates0: seq<Scored>, results0: seq<Scored>, visited: VisitedBitmap)
    returns (results: seq<Scored>)
    requires ef >= 1 && beamWidth >= 1 && results0 != [] && graph.numNodes == |data|
    requires QueueInRange(candidates0, |data|) && Ascending(results0)
    requires RankReady(query, graph, codes, encoder) && TableReady(query, encoder, table)
    requires Covers(data, query) && ReadyReader(reader, query, |data|)
    requires visited.Valid() && visited.size == graph.numNodes
    requires Apart(visited, reader) && Uninvolved(graph, encoder, table, reader)
    modifies visited.bitmap, ReaderObjects(reader)
    ensures ReadyReader(reader, query, |data|)
    ensures results == old(BatchRun(BeamOf(candidates0, results0, visited), RankOf(query, k, graph, codes, encoder),
                                    beamWidth, ExactDistances(query, data, reader), ef)).best
  {
    hide BatchRun;
    hide Unvisited;
    var candidates := candidates0;
    results := results0;
    ghost var e, dists := RankOf(query, k, graph, codes, encoder), ExactDistances(query, data, reader);
    ghost var beam := BeamOf(candidates, results, visited);
    ghost var finish := BatchRun(beam, e, beamWidth, dists, ef);
    while candidates != []
      invariant visited.Valid() && results != [] && ReadyReader(reader, query, |data|)
      invariant RankReady(query, graph, codes, encoder) && RankOf(query, k, graph, codes, encoder) == e
      invariant TableReady(query, encoder, table)
      invariant beam == BeamOf(candidates, results, visited)
      invariant Orderly(beam, |data|)
      invariant BatchRun(beam, e, beamWidth, dists, ef) == finish
      decreases |Unvisited(beam, dists)|, |candidates|
    {
      var top := candidates[0];
      candidates := candidates[1..];
      var fd := results[|results| - 1].dist;
      if top.dist > fd && |results| >= ef {
        BatchRunStops(beam, e, beamWidth, dists, ef);
        return;
      }
      assert beam.frontier[0] == top && beam.best == results;
      BatchExpandStep(beam, e, beamWidth, dists, ef);
      BatchExpandWork(beam, e, beamWidth, dists, ef);
      candidates, results := ExpandNode(query, k, ef, beamWidth, graph, codes, encoder, table, data, reader,
                                        top.id, candidates, results, visited);
      beam := BatchExpand(beam, e, beamWidth, dists, ef);
    }
    BatchRunStops(beam, e, beamWidth, dists, ef);
  }

  method BuildTable(query: Vector, graph: FlatGraphIndex, codes: seq<seq<Code>>, encoder: PQEncoder,
                    table: PQDistanceTable)
    requires RankReady(query, graph, codes, encoder)
    modifies table
    ensures TableReady(query, encoder, table)
  {
    assert LookInside(true);
    table.Build(query, encoder);
  }

  /** Visits the entry point. */
  method Enter(query: Vector, data: seq<Vector>, reader: DiskIndexReader?, ep: nat, visited: VisitedBitmap)
    returns (first: Scored)
    requires Covers(data, query) && ep < |data| && ReadyReader(reader, query, |data|)
    requires visited.Valid() && visited.size == |data| && visited.Contents() == {}
    requires Apart(visited, reader)
    modifies visited.bitmap, ReaderObjects(reader)
    ensures visited.Valid() && ReadyReader(reader, query, |data|)
    ensures first.id == ep && BeamOf([first], [first], visited) == Start(ep, ExactDistances(query, data, reader))
  {
    var epDist := ExactDistance(query, data, reader, ep);
    first := Scored(epDist, ep);
    visited.Set(ep);
  }

  /** The search proper, once the query's table is built and the graph is known not to be empty. */
  method SearchWithTable(query: Vector, k: nat, ef: nat, beamWidth: nat, graph: FlatGraphIndex, codes: seq<seq<Code>>,
                         encoder: PQEncoder, table: PQDistanceTable, data: seq<Vector>, reader: DiskIndexReader?,
                         visited: VisitedBitmap) returns (result: seq<nat>)
    requires ef >= 1 && beamWidth >= 1 && graph.entryPoint < graph.numNodes == |data|
    requires RankReady(query, graph, codes, encoder) && TableReady(query, encoder, table)
    requires Covers(data, query) && ReadyReader(reader, query, |data|)
    requires visited.Valid() && visited.size == graph.numNodes && visited.Contents() == {}
    requires Apart(visited, reader) && Uninvolved(graph, encoder, table, reader)
    modifies visited.bitmap, ReaderObjects(reader)
    ensures ReadyReader(reader, query, |data|)
    ensures result == old(BatchSearch(graph.entryPoint, RankOf(query, k, graph, codes, encoder), beamWidth,
                                      ExactDistances(query, data, reader), ef, k))
  {
    hide BatchRun;
    hide Rankable;
    ghost var e, dists := RankOf(query, k, graph, codes, encoder), ExactDistances(query, data, reader);
    var ep := graph.entryPoint;
    var first := Enter(query, data, reader, ep, visited);
    BatchRunAscending(Start(ep, dists), e, beamWidth, dists, ef);
    var results := DiskLoop(query, k, ef, beamWidth, graph, codes, encoder, table,
                            data, reader, [first], [first], visited);
    var sorted := DrainSorted(results);
    result := TakeIds(sorted, k);
  }

  /** The search. Its result does not depend on what the cache holds, and depends on the beam width only
      where lists repeat a neighbour. */
  method DiskannSearchEnhanced(query: Vector, k: nat, efSearch: nat, beamWidth: nat, graph: FlatGraphIndex,
                               codes: seq<seq<Code>>, encoder: PQEncoder, data: seq<Vector>, reader: DiskIndexReader?,
                               visited: VisitedBitmap) returns (result: seq<nat>)
    requires efSearch >= 1 && beamWidth >= 1 && |data| == graph.numNodes
    requires RankReady(query, graph, codes, encoder) && (graph.numNodes > 0 ==> graph.entryPoint < graph.numNodes)
    requires Covers(data, query) && ReadyReader(reader, query, |data|)
    requires reader == null ==> Uniform(data, |query|)
    requires visited.Valid() && visited.size == graph.numNodes && visited.Contents() == {}
    requires reader != null ==> (graph as object) !in reader.Objects() && (encoder as object) !in reader.Objects()
    requires Apart(visited, reader)
    modifies visited.bitmap, ReaderObjects(reader)
    ensures ReadyReader(reader, query, |data|)
    ensures graph.numNodes == 0 ==> result == []
    ensures graph.numNodes > 0 ==>
      result == old(BatchSearch(graph.entryPoint, RankOf(query, k, graph, codes, encoder), beamWidth,
                                ExactDistances(query, data, reader), efSearch, k))
  {
    hide BatchSearch;
    hide Rankable;
    hide Uniform;
    hide Covers;
    hide HoldsRecords;
    hide RowsFit;
    hide RankOf;
    if graph.numNodes == 0 { return []; }
    ghost var e, dists := RankOf(query, k, graph, codes, encoder), ExactDistances(query, data, reader);
    assert forall o :: o in ReaderObjects(reader) ==> allocated(o);
    var table := new PQDistanceTable();
    assert Uninvolved(graph, encoder, table, reader);
    BuildTable(query, graph, codes, encoder, table);
    assert RankReady(query, graph, codes, encoder);
    assert ReadyReader(reader, query, |data|);
    assert RankOf(query, k, graph, codes, encoder) == e && ExactDistances(query, data, reader) == dists;
    result := SearchWithTable(query, k, efSearch, beamWidth, graph, codes, encoder, table, data, reader, visited);
  }

  /** Reading vectors back from the disk they were written to gives the distances of memory, so that
      a search through the reader returns what the in-memory one does. */
  lemma DiskMatchesMemory(query: Vector, data: seq<Vector>, reader: DiskIndexReader, entry: nat, e: Expansion,
                          width: nat, ef: nat, k: nat)
    requires Covers(data, query) && HoldsRecords(reader.disk, |data|) && |query| <= DEFAULT_DIMENSION
    requires forall n :: 0 <= n < |data| ==> DiskVector(reader.disk, n) == data[n]
    requires entry < |data| && width >= 1 && ef >= 1
    ensures ExactDistances(query, data, reader) == ExactDistances(query, data, null)
    ensures BatchSearch(entry, e, width, ExactDistances(query, data, reader), ef, k)
         == BatchSearch(entry, e, width, ExactDistances(query, data, null), ef, k)
  {
    assert ExactDistances(query, data, reader) == ExactDistances(query, data, null);
  }

  /** When no list of the graph names a node twice, other than its owner, or batches hold one node, the
      search returns what visiting the ranked candidates one at a time does, for every beam width. */
  lemma BeamWidthDoesNotMatter(query: Vector, k: nat, ef: nat, beamWidth: nat, graph: FlatGraphIndex,
                               codes: seq<seq<Code>>, encoder: PQEncoder, dists: seq<real>)
    requires RankReady(query, graph, codes, encoder) && Rankable(query, graph, codes, encoder)
    requires ef >= 1 && beamWidth >= 1 && graph.entryPoint < graph.numNodes == |dists|
    requires beamWidth == 1 || ListsDistinct(graph.Adj())
    ensures BatchSearch(graph.entryPoint, RankOf(query, k, graph, codes, encoder), beamWidth, dists, ef, k)
         == Search(graph.entryPoint, RankOf(query, k, graph, codes, encoder), dists, ef, k)
  {
    hide RowsFit;
    hide ValidCodes;
    hide HasShape;
    var estimates := Estimates(query, codes, encoder.codebooks, encoder.k, encoder.subDim);
    SearchesAgree(graph.entryPoint, graph.Adj(), estimates, beamWidth, dists, ef, k);
  }
}
