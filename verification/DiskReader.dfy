/** Reads vectors and computes distances through the buffer pool, or straight from the disk when
    the pool has no room. */
module DiskReaders {
  import opened Options
  import opened Guards
  import opened Bytes
  import opened Vectors
  import opened DiskRecords
  import opened EvictionPolicy
  import opened BufferPool
  import opened PoolSteps
  import opened BufferPoolManagers

  /** The share of the cache that the hot queue takes. */
  const HOT_QUEUE_RATIO: real := 0.3

  /** The vector of a node's record on disk, as numbers. */
  function DiskVector(disk: map<PageId, Page>, node: PageId): (v: Vector)
    requires node in disk && |disk[node]| == DISK_RECORD_SIZE
    ensures |v| == DEFAULT_DIMENSION
  {
    FloatValues(PageVector(disk[node]))
  }

  /** A disk with a full record for each of the first n nodes. */
  predicate HoldsRecords(disk: map<PageId, Page>, n: nat) {
    forall node :: 0 <= node < n ==> node in disk && |disk[node]| == DISK_RECORD_SIZE
  }

  /** What getting a page does to the pool: a lookup, and if that misses a load. */
  ghost predicate GetsPage(s: Pool, t: Pool, frame: Option<nat>, p: PageId, data: Page) {
    Mapped(s) && (t, frame) == if p in s.table then BufferPool.GetPage(s, p) else LoadIfAbsent(s, p, data)
  }

  /** What measuring a distance does to the pool: a pinned lookup, and if that misses a pinned load, each undone by an
      unpin; and if that is refused, getting the page without a pin. */
  ghost predicate MeasuresIn(s: Pool, t: Pool, p: PageId, data: Page) {
    && Mapped(s)
    && var (u, frame) := LoadAndPin(s, p, data);
       && Mapped(u)
       && if frame.Some? then t == BufferPool.UnpinPage(u, p).0 else exists f :: GetsPage(u, t, f, p, data)
  }

  lemma HitMeasures(s: Pool, u: Pool, t: Pool, p: PageId, data: Page)
    requires Consistent(s) && Consistent(u) && p in s.table && GetAndPin(s, p).0 == u
    requires BufferPool.UnpinPage(u, p).0 == t
    ensures MeasuresIn(s, t, p, data)
  {
    LoadResidentExactly(s, p, data);
    LookupExactly(s, p);
  }

  lemma LoadMeasures(s: Pool, u: Pool, t: Pool, p: PageId, data: Page)
    requires Consistent(s) && Consistent(u) && LoadAndPin(s, p, data).0 == u
    requires if LoadAndPin(s, p, data).1.Some? then BufferPool.UnpinPage(u, p).0 == t
             else exists f :: GetsPage(u, t, f, p, data)
    ensures MeasuresIn(s, t, p, data)
  {
  }

  /** Whether a page is in the pool afterwards: exactly when it was there before or could be loaded, at the first try
      or, when that was refused, at the second, which tries the next page the policy gives up. */
  lemma MeasuredExactly(s: Pool, t: Pool, p: PageId, data: Page)
    requires Consistent(s) && MeasuresIn(s, t, p, data)
    ensures p in t.table <==> p in s.table || s.free != [] || CanEvict(s) || CanEvict(Evict(s).0)
  {
    hide Evict;
    hide PickVictim;
    hide CanEvict;
    hide Vacated;
    hide LoadIfAbsent;
    hide LoadAndPin;
    if p in s.table {
      LoadResidentExactly(s, p, data);
      LookupExactly(s, p);
      PinAndUnpinExactly(GetAndPin(s, p).0, p);
    } else {
      LoadExactly(s, p, data, true);
      PinAndUnpinExactly(LoadAndPin(s, p, data).0, p);
      if s.free == [] && !CanEvict(s) {
        var disk := map o | o in s.table :: s.frames[s.table[o]].data;
        EvictKeeps(s, disk);
        LoadExactly(Evict(s).0, p, data, false);
      }
    }
  }

  class DiskIndexReader {
    const disk: map<PageId, Page>
    const numVectors: nat
    const maxDegree: nat
    /** Null when caching is disabled. */
    const bufferPool: BufferPoolManager?

    ghost predicate Valid()
      reads this, Objects()
    {
      && HoldsRecords(disk, numVectors)
      && maxDegree <= DISK_MAX_DEGREE
      && forall b {:trigger LookInside(b)} :: LookInside(b) ==> PoolReady()
    }

    /** The pool keeps its invariants, and its frames hold their pages' disk bytes. */
    ghost predicate PoolReady()
      reads this, Objects()
    {
      bufferPool != null ==> bufferPool.Valid() && Faithful(bufferPool.State(), disk)
    }

    /** What the reader may change: the pool, not the disk. */
    ghost function Objects(): set<object>
    {
      if bufferPool == null then {} else {bufferPool, bufferPool.frames, bufferPool.policy}
    }

    /** The reader's file, opened with a cache of the given number of pages, 0 meaning none. */
    constructor (disk: map<PageId, Page>, numVectors: nat, maxDegree: nat, cachePages: nat)
      requires HoldsRecords(disk, numVectors) && maxDegree <= DISK_MAX_DEGREE
      ensures Valid() && fresh(Objects())
      ensures this.disk == disk && this.numVectors == numVectors
      ensures bufferPool == null <==> cachePages == 0
      ensures bufferPool != null ==>
        bufferPool.State() == EmptyPool(cachePages, (cachePages as real * HOT_QUEUE_RATIO).Floor, 2)
    {
      this.disk := disk;
      this.numVectors := numVectors;
      this.maxDegree := maxDegree;
      if cachePages == 0 {
        bufferPool := null;
      } else {
        var pool := new BufferPoolManager(cachePages, HOT_QUEUE_RATIO);
        bufferPool := pool;
      }
    }

    /** A cached page, loading it when it is absent: a shared-lock lookup, then a second step
        under the write lock. */
    method GetOrLoadPage(node: PageId) returns (frame: Option<nat>)
      requires Valid() && bufferPool != null && node < numVectors
      modifies Objects()
      ensures Valid()
      ensures forall p :: PinsOf(bufferPool.State(), p) == old(PinsOf(bufferPool.State(), p))
      ensures frame.Some? ==>
        frame.value < bufferPool.frames.Length && bufferPool.frames[frame.value].data == disk[node]
      ensures GetsPage(old(bufferPool.State()), bufferPool.State(), frame, node, disk[node])
    {
      assert LookInside(true);
      ghost var before := bufferPool.State();
      frame := bufferPool.GetPage(node);
      if frame.Some? {
        TouchKeeps(before, node, disk);
        return;
      }
      frame := bufferPool.LoadAbsentPage(node, disk[node]);
      LoadKeeps(before, node, false, disk);
    }

    /** The vector in a node's record, through the cache when there is one, and straight from
        disk when the pool has no room. */
    method ReadVector(node: PageId) returns (vector: seq<Word>)
      requires Valid() && node < numVectors
      modifies Objects()
      ensures Valid()
      ensures bufferPool != null ==> forall p :: PinsOf(bufferPool.State(), p) == old(PinsOf(bufferPool.State(), p))
      ensures vector == PageVector(disk[node])
      ensures bufferPool != null ==>
        exists frame :: GetsPage(old(bufferPool.State()), bufferPool.State(), frame, node, disk[node])
    {
      assert LookInside(true);
      if bufferPool != null {
        var frame := GetOrLoadPage(node);
        if frame.Some? {
          var record := ParseRecord(bufferPool.frames[frame.value].data, maxDegree);
          return record.vector;
        }
      }
      var record := ParseRecord(disk[node], maxDegree);
      return record.vector;
    }

    /** The distance of a node to the query: computed from a pinned page on a hit or after a
        load, and from a direct read when the pool has no room. It is always the distance to
        the vector on disk, whatever the pool holds. */
    method ComputeDistanceDirect(node: PageId, query: Vector) returns (distance: real)
      requires Valid() && node < numVectors && |query| <= DEFAULT_DIMENSION
      modifies Objects()
      ensures Valid()
      ensures distance == L2(query, DiskVector(disk, node), |query|)
      ensures bufferPool != null ==> forall p :: PinsOf(bufferPool.State(), p) == old(PinsOf(bufferPool.State(), p))
      ensures bufferPool != null ==> MeasuresIn(old(bufferPool.State()), bufferPool.State(), node, disk[node])
    {
      hide Consistent;
      hide Faithful;
      hide MeasuresIn;
      hide GetsPage;
      assert LookInside(true);
      ghost var before := if bufferPool == null then EmptyPool(0, 0, 0) else bufferPool.State();
      ghost var loaded := before;
      if bufferPool != null {
        var frame := bufferPool.GetAndPinPage(node);
        if frame.Some? {
          TouchKeeps(before, node, disk);
          SetPinsKeeps(Touch(before, node), node, PinsOf(before, node) + 1, disk);
          ghost var pinned := bufferPool.State();
          distance := DistanceInFrame(frame.value, node, query);
          HitMeasures(before, pinned, bufferPool.State(), node, disk[node]);
          return;
        }
        frame := bufferPool.GetOrLoadAndPinPage(node, disk[node]);
        LoadKeeps(before, node, true, disk);
        loaded := bufferPool.State();
        if frame.Some? {
          distance := DistanceInFrame(frame.value, node, query);
          LoadMeasures(before, loaded, bufferPool.State(), node, disk[node]);
          return;
        }
      }
      var vector := ReadVector(node);
      if bufferPool != null { LoadMeasures(before, loaded, bufferPool.State(), node, disk[node]); }
      distance := L2(query, FloatValues(vector), |query|);
    }

    /** Computes the distance from a page pinned in a frame, then unpins it. */
    method DistanceInFrame(frame: nat, node: PageId, query: Vector) returns (distance: real)
      requires Valid() && bufferPool != null && node < numVectors && |query| <= DEFAULT_DIMENSION
      requires node in bufferPool.State().table && bufferPool.State().table[node] == frame
      modifies Objects()
      ensures Valid()
      ensures distance == L2(query, DiskVector(disk, node), |query|)
      ensures forall p :: PinsOf(bufferPool.State(), p) ==
                          old(PinsOf(bufferPool.State(), p))
                          - (if p == node && old(PinsOf(bufferPool.State(), p)) > 0 then 1 else 0)
      ensures Mapped(old(bufferPool.State()))
        && bufferPool.State() == BufferPool.UnpinPage(old(bufferPool.State()), node).0
    {
      assert LookInside(true);
      ghost var before := bufferPool.State();
      distance := L2(query, FloatValues(PageVector(bufferPool.frames[frame].data)), |query|);
      SetPinsKeeps(before, node, if PinsOf(before, node) > 0 then PinsOf(before, node) - 1 else 0, disk);
      var _ := bufferPool.UnpinPage(node);
    }
  }
}
