/** The 4096-byte record of a node. */
module DiskRecords {
  import opened Sequences
  import opened Bytes

  const DISK_RECORD_SIZE: nat := BLOCK_SIZE
  const DISK_VECTOR_OFFSET: nat := 32
  const DEFAULT_DIMENSION: nat := 128
  const DISK_MAX_DEGREE: nat := 32
  const DEFAULT_PQ_M: nat := 8
  const NEIGHBORS_OFFSET: nat := DISK_VECTOR_OFFSET + 4 * DEFAULT_DIMENSION

  datatype Record = Record(nodeId: Word, vector: seq<Word>, neighbors: seq<Word>, neighborCodes: seq<seq<Byte>>)

  function NumNeighbors(neighbors: seq<Word>, maxDegree: nat): nat {
    if |neighbors| < maxDegree then |neighbors| else maxDegree
  }

  /** The code written next to a neighbour id: zeros when the id has no code. */
  function CodeOf(id: Word, codes: seq<seq<Byte>>): seq<Byte> {
    if id < |codes| then codes[id] else Zeros(DEFAULT_PQ_M)
  }

  function CodesOf(ids: seq<Word>, codes: seq<seq<Byte>>): (r: seq<seq<Byte>>)
    ensures |r| == |ids|
    ensures forall i :: 0 <= i < |ids| ==> r[i] == CodeOf(ids[i], codes)
  {
    seq(|ids|, i requires 0 <= i < |ids| => CodeOf(ids[i], codes))
  }

  predicate CodesAreWide(codes: seq<seq<Byte>>) {
    forall c :: c in codes ==> |c| == DEFAULT_PQ_M
  }

  function Joined(codes: seq<seq<Byte>>): (r: seq<Byte>)
    requires CodesAreWide(codes)
    ensures |r| == DEFAULT_PQ_M * |codes|
  {
    if codes == [] then [] else Joined(codes[..|codes| - 1]) + codes[|codes| - 1]
  }

  lemma CodesOfWide(ids: seq<Word>, codes: seq<seq<Byte>>)
    requires CodesAreWide(codes)
    ensures CodesAreWide(CodesOf(ids, codes))
  {
    var r := CodesOf(ids, codes);
    forall i | 0 <= i < |ids| ensures |r[i]| == DEFAULT_PQ_M {
      assert r[i] == CodeOf(ids[i], codes);
    }
  }

  lemma JoinedNext(codes: seq<seq<Byte>>, i: nat)
    requires CodesAreWide(codes) && i < |codes|
    ensures CodesAreWide(codes[..i]) && CodesAreWide(codes[..i + 1]) && |codes[i]| == DEFAULT_PQ_M
    ensures Joined(codes[..i + 1]) == Joined(codes[..i]) + codes[i]
  {
    assert codes[..i + 1][..i] == codes[..i];
  }

  predicate WellFormed(r: Record) {
    && |r.vector| == DEFAULT_DIMENSION && |r.neighbors| <= DISK_MAX_DEGREE
    && |r.neighborCodes| == |r.neighbors| && CodesAreWide(r.neighborCodes)
  }

  /** The fields, one after the other, fit a page. */
  predicate FitsPage(r: Record) {
    && DISK_VECTOR_OFFSET + 4 * |r.vector| + 8 + 12 * |r.neighbors| <= DISK_RECORD_SIZE
    && |r.neighborCodes| == |r.neighbors| && CodesAreWide(r.neighborCodes)
  }

  function Header(nodeId: Word): (h: seq<Byte>)
    ensures |h| == DISK_VECTOR_OFFSET
  {
    WordBytes(nodeId) + Zeros(28)
  }

  /** The layout: header, vector, count, ids, codes, zeros to the end of the page. */
  function Layout(r: Record): (page: seq<Byte>)
    requires FitsPage(r)
    ensures |page| == DISK_RECORD_SIZE
  {
    Padded(Header(r.nodeId) + WordsBytes(r.vector) + DoubleBytes(|r.neighbors|)
           + WordsBytes(r.neighbors) + Joined(r.neighborCodes))
  }

  method PutIds(page: seq<Byte>, ghost used: seq<Byte>, at: nat, ids: seq<Word>)
    returns (buffer: seq<Byte>, offset: nat)
    requires |used| == at && at + 4 * |ids| <= DISK_RECORD_SIZE && page == Padded(used)
    ensures offset == at + 4 * |ids| && buffer == Padded(used + WordsBytes(ids))
  {
    buffer, offset := page, at;
    assert used + WordsBytes([]) == used;
    for i := 0 to |ids|
      invariant offset == at + 4 * i
      invariant buffer == Padded(used + WordsBytes(ids[..i]))
    {
      assert ids[..i + 1][..i] == ids[..i];
      PutAppends(used + WordsBytes(ids[..i]), WordBytes(ids[i]));
      assert used + WordsBytes(ids[..i + 1]) == used + WordsBytes(ids[..i]) + WordBytes(ids[i]);
      buffer := Splice(buffer, offset, WordBytes(ids[i]));
      offset := offset + 4;
    }
    assert ids[..|ids|] == ids;
  }

  lemma PutCode(used: seq<Byte>, codes: seq<seq<Byte>>, i: nat)
    requires CodesAreWide(codes) && i < |codes| && |used| + 8 * |codes| <= DISK_RECORD_SIZE
    ensures CodesAreWide(codes[..i]) && CodesAreWide(codes[..i + 1]) && |codes[i]| == DEFAULT_PQ_M
    ensures Splice(Padded(used + Joined(codes[..i])), |used| + 8 * i, codes[i]) == Padded(used + Joined(codes[..i + 1]))
  {
    JoinedNext(codes, i);
    var before := used + Joined(codes[..i]);
    PutAppends(before, codes[i]);
    assert used + Joined(codes[..i + 1]) == before + codes[i];
  }

  method PutCodes(page: seq<Byte>, ghost used: seq<Byte>, at: nat, ids: seq<Word>, pqCodes: seq<seq<Byte>>)
    returns (buffer: seq<Byte>, offset: nat)
    requires CodesAreWide(pqCodes)
    requires |used| == at && at + 8 * |ids| <= DISK_RECORD_SIZE && page == Padded(used)
    ensures CodesAreWide(CodesOf(ids, pqCodes))
    ensures offset == at + 8 * |ids| && buffer == Padded(used + Joined(CodesOf(ids, pqCodes)))
  {
    buffer, offset := page, at;
    ghost var codes := CodesOf(ids, pqCodes);
    CodesOfWide(ids, pqCodes);
    assert used + Joined([]) == used;
    for i := 0 to |ids|
      invariant offset == at + 8 * i
      invariant CodesAreWide(codes[..i]) && buffer == Padded(used + Joined(codes[..i]))
    {
      PutCode(used, codes, i);
      var code := CodeOf(ids[i], pqCodes);
      buffer := Splice(buffer, offset, code);
      offset := offset + DEFAULT_PQ_M;
    }
    assert codes[..|ids|] == codes;
  }

  /** Packs a record. Whatever the length of the vector, the fields follow each other without gaps. */
  method PackRecord(vector: seq<Word>, neighbors: seq<Word>, pqCodes: seq<seq<Byte>>, nodeId: Word, maxDegree: nat)
    returns (buffer: seq<Byte>)
    requires CodesAreWide(pqCodes)
    requires DISK_VECTOR_OFFSET + 4 * |vector| + 8 + 12 * NumNeighbors(neighbors, maxDegree) <= DISK_RECORD_SIZE
    ensures var ids := neighbors[..NumNeighbors(neighbors, maxDegree)];
      CodesAreWide(CodesOf(ids, pqCodes)) && buffer == Layout(Record(nodeId, vector, ids, CodesOf(ids, pqCodes)))
  {
    buffer := Zeros(DISK_RECORD_SIZE);
    buffer := Splice(buffer, 0, WordBytes(nodeId));
    assert buffer == Padded(Header(nodeId));
    var offset := DISK_VECTOR_OFFSET;
    ghost var used := Header(nodeId);
    PutAppends(used, WordsBytes(vector));
    buffer := Splice(buffer, offset, WordsBytes(vector));
    offset := offset + 4 * |vector|;
    used := used + WordsBytes(vector);
    var numNeigh := NumNeighbors(neighbors, maxDegree);
    PutAppends(used, DoubleBytes(numNeigh));
    buffer := Splice(buffer, offset, DoubleBytes(numNeigh));
    offset := offset + 8;
    used := used + DoubleBytes(numNeigh);
    var ids: seq<Word> := neighbors[..numNeigh];
    buffer, offset := PutIds(buffer, used, offset, ids);
    buffer, offset := PutCodes(buffer, used + WordsBytes(ids), offset, ids, pqCodes);
  }

  // ---------------------------------------------------------------------------------------
  // Parsing
  // ---------------------------------------------------------------------------------------

  /** The vector of a page: 128 floats from offset 32. */
  function PageVector(page: seq<Byte>): (v: seq<Word>)
    requires |page| == DISK_RECORD_SIZE
    ensures |v| == DEFAULT_DIMENSION
  {
    WordsAt(page, DISK_VECTOR_OFFSET, DEFAULT_DIMENSION)
  }

  function CodesAt(page: seq<Byte>, at: nat, count: nat): (r: seq<seq<Byte>>)
    requires at + 8 * count <= |page|
    ensures |r| == count
  {
    if count == 0 then []
    else CodesAt(page, at, count - 1) + [page[at + 8 * (count - 1)..at + 8 * count]]
  }

  /** What a page holds, read field by field; the neighbour count is cut at the maximum degree. */
  function Parsed(page: seq<Byte>, maxDegree: nat): Record
    requires |page| == DISK_RECORD_SIZE && maxDegree <= DISK_MAX_DEGREE
  {
    var stored := DoubleAt(page, NEIGHBORS_OFFSET);
    var count: nat := if stored < maxDegree then stored else maxDegree;
    Record(WordAt(page, 0), PageVector(page), WordsAt(page, NEIGHBORS_OFFSET + 8, count),
           CodesAt(page, NEIGHBORS_OFFSET + 8 + 4 * count, count))
  }

  method ParseRecord(page: seq<Byte>, maxDegree: nat) returns (record: Record)
    requires |page| == DISK_RECORD_SIZE && maxDegree <= DISK_MAX_DEGREE
    ensures record == Parsed(page, maxDegree)
  {
    var nodeId := WordAt(page, 0);
    var vector := WordsAt(page, DISK_VECTOR_OFFSET, DEFAULT_DIMENSION);
    var offset := DISK_VECTOR_OFFSET + 4 * DEFAULT_DIMENSION;
    var stored := DoubleAt(page, offset);
    offset := offset + 8;
    var count: nat := if stored < maxDegree then stored else maxDegree;
    var neighbors := ReadIds(page, offset, count);
    var codes := ReadCodes(page, offset + 4 * count, count);
    record := Record(nodeId, vector, neighbors, codes);
  }

  method ReadIds(page: seq<Byte>, at: nat, count: nat) returns (ids: seq<Word>)
    requires at + 4 * count <= |page|
    ensures ids == WordsAt(page, at, count)
  {
    ids := [];
    var offset := at;
    for i := 0 to count
      invariant offset == at + 4 * i
      invariant ids == WordsAt(page, at, i)
    {
      ids := ids + [WordAt(page, offset)];
      offset := offset + 4;
    }
  }

  method ReadCodes(page: seq<Byte>, at: nat, count: nat) returns (codes: seq<seq<Byte>>)
    requires at + 8 * count <= |page|
    ensures codes == CodesAt(page, at, count)
  {
    codes := [];
    var offset := at;
    for i := 0 to count
      invariant offset == at + 8 * i
      invariant codes == CodesAt(page, at, i)
    {
      codes := codes + [page[offset..offset + DEFAULT_PQ_M]];
      offset := offset + DEFAULT_PQ_M;
    }
  }

  lemma {:induction false} CodesRoundTrip(page: seq<Byte>, at: nat, codes: seq<seq<Byte>>)
    requires CodesAreWide(codes) && at + 8 * |codes| <= |page|
    requires page[at..at + 8 * |codes|] == Joined(codes)
    ensures CodesAt(page, at, |codes|) == codes
  {
    if codes != [] {
      var last := |codes| - 1;
      var part, mid := page[at..at + 8 * |codes|], at + 8 * last;
      JoinedNext(codes, last);
      assert codes[..last + 1] == codes;
      assert part == Joined(codes[..last]) + codes[last];
      assert page[at..mid] == part[..8 * last];
      assert page[mid..mid + 8] == part[8 * last..];
      CodesRoundTrip(page, at, codes[..last]);
    }
  }

  /** Parsing a packed page gives back the record, for any degree limit the record respects, exactly when its
      vector has the dimension the parser expects. */
  lemma ParseAfterPack(r: Record, maxDegree: nat)
    requires FitsPage(r) && |r.neighbors| <= maxDegree <= DISK_MAX_DEGREE
    ensures Parsed(Layout(r), maxDegree) == r <==> |r.vector| == DEFAULT_DIMENSION
  {
    if |r.vector| == DEFAULT_DIMENSION {
      LayoutFields(r);
      ParseFields(Layout(r), r, |r.neighbors|, maxDegree);
    } else {
      assert |Parsed(Layout(r), maxDegree).vector| == DEFAULT_DIMENSION;
    }
  }

  lemma ParseFields(page: seq<Byte>, r: Record, n: nat, maxDegree: nat)
    requires WellFormed(r) && n == |r.neighbors| <= maxDegree <= DISK_MAX_DEGREE && |page| == DISK_RECORD_SIZE
    requires page[0..4] == WordBytes(r.nodeId)
    requires page[32..544] == WordsBytes(r.vector)
    requires page[544..552] == DoubleBytes(n)
    requires page[552..552 + 4 * n] == WordsBytes(r.neighbors)
    requires page[552 + 4 * n..552 + 12 * n] == Joined(r.neighborCodes)
    ensures Parsed(page, maxDegree) == r
  {
    hide WordsAt;
    hide CodesAt;
    hide WordsBytes;
    hide Joined;
    hide PageVector;
    ParseHead(page, r);
    ParseLists(page, r, n);
  }

  lemma ParseHead(page: seq<Byte>, r: Record)
    requires WellFormed(r) && |page| == DISK_RECORD_SIZE
    requires page[0..4] == WordBytes(r.nodeId)
    requires page[32..544] == WordsBytes(r.vector)
    requires page[544..552] == DoubleBytes(|r.neighbors|)
    ensures WordAt(page, 0) == r.nodeId && PageVector(page) == r.vector
    ensures DoubleAt(page, NEIGHBORS_OFFSET) == |r.neighbors|
  {
    WordRoundTrip(page, 0, r.nodeId);
    WordsRoundTrip(page, DISK_VECTOR_OFFSET, r.vector);
    DoubleRoundTrip(page, NEIGHBORS_OFFSET, |r.neighbors|);
  }

  lemma ParseLists(page: seq<Byte>, r: Record, n: nat)
    requires WellFormed(r) && n == |r.neighbors| && |page| == DISK_RECORD_SIZE
    requires page[552..552 + 4 * n] == WordsBytes(r.neighbors)
    requires page[552 + 4 * n..552 + 12 * n] == Joined(r.neighborCodes)
    ensures WordsAt(page, NEIGHBORS_OFFSET + 8, n) == r.neighbors
    ensures CodesAt(page, NEIGHBORS_OFFSET + 8 + 4 * n, n) == r.neighborCodes
  {
    hide WordsAt;
    hide CodesAt;
    hide WordsBytes;
    hide Joined;
    WordsRoundTrip(page, NEIGHBORS_OFFSET + 8, r.neighbors);
    CodesRoundTrip(page, NEIGHBORS_OFFSET + 8 + 4 * n, r.neighborCodes);
  }

  /** Where each field lies in the page. */
  lemma LayoutFields(r: Record)
    requires WellFormed(r)
    ensures var page, n := Layout(r), |r.neighbors|;
      && page[0..4] == WordBytes(r.nodeId)
      && page[32..544] == WordsBytes(r.vector)
      && page[544..552] == DoubleBytes(n)
      && page[552..552 + 4 * n] == WordsBytes(r.neighbors)
      && page[552 + 4 * n..552 + 12 * n] == Joined(r.neighborCodes)
  {
    hide WordBytes;
    hide WordsBytes;
    hide DoubleBytes;
    hide Joined;
    hide CodesAreWide;
    hide Zeros;
    var a, b, c, d := Header(r.nodeId), WordsBytes(r.vector), DoubleBytes(|r.neighbors|), WordsBytes(r.neighbors);
    var e := Joined(r.neighborCodes);
    var page := Layout(r);
    TakeField(page, a + b + c + d, e);
    TakeField(page, a + b + c, d);
    TakeField(page, a + b, c);
    TakeField(page, a, b);
    TakeField(page, WordBytes(r.nodeId), Zeros(28));
  }

  /** The whole trip through the disk: id, vector, the first min(n, maxDegree) neighbours, and
      their codes, with zeros for neighbours that have none. */
  method WriteThenRead(vector: seq<Word>, neighbors: seq<Word>, pqCodes: seq<seq<Byte>>, nodeId: Word, maxDegree: nat)
    returns (record: Record)
    requires |vector| == DEFAULT_DIMENSION && maxDegree <= DISK_MAX_DEGREE && CodesAreWide(pqCodes)
    ensures record.nodeId == nodeId && record.vector == vector
    ensures |record.neighbors| == |record.neighborCodes| == NumNeighbors(neighbors, maxDegree)
    ensures forall i :: 0 <= i < |record.neighbors| ==>
      && record.neighbors[i] == neighbors[i]
      && record.neighborCodes[i] == if neighbors[i] < |pqCodes| then pqCodes[neighbors[i]] else Zeros(DEFAULT_PQ_M)
  {
    hide Layout;
    hide Parsed;
    hide CodesAreWide;
    var page := PackRecord(vector, neighbors, pqCodes, nodeId, maxDegree);
    ghost var ids: seq<Word> := neighbors[..NumNeighbors(neighbors, maxDegree)];
    ParseAfterPack(Record(nodeId, vector, ids, CodesOf(ids, pqCodes)), maxDegree);
    record := ParseRecord(page, maxDegree);
  }
}
