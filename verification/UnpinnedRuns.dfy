/** Pools whose unpinned reads are always right. */
module UnpinnedRuns {
  // A reader's pool starts empty. Whether some run of it can tear a read without a pin depends on its
  // number of frames, the capacity of its hot queue and the pages on disk alone.

  import opened Sequences
  import opened Bytes
  import opened Ranking
  import opened DiskRecords
  import opened EvictionPolicy
  import opened BufferPool
  import opened PoolSketches
  import opened DiskReaders
  import opened PinProtocol
  import opened UnpinnedReads

  ghost predicate IsRunOf(states: seq<System>, actions: seq<Action>, pool: Pool, disk: map<PageId, Page>) {
    IsRun(states, actions, disk) && states[0].pool == pool
  }

  /** In every run that starts with an empty pool, every thread that reads without a pin reads its page. */
  ghost predicate ReadsStayRight(size: nat, hotMax: nat, hub: nat, disk: map<PageId, Page>) {
    forall states, actions, j: nat, t: nat ::
      IsRunOf(states, actions, EmptyPool(size, hotMax, hub), disk) && j < |states| ==> SeesDisk(states[j], t, disk)
  }

  /** All pages on disk hold the same vector. */
  ghost predicate VectorsAgree(disk: map<PageId, Page>) {
    forall p, q, i: nat | p in disk && q in disk :: Coordinate(disk, p, i) == Coordinate(disk, q, i)
  }

  // ---------------------------------------------------------------------------------------
  // Pools that cannot tear a read
  // ---------------------------------------------------------------------------------------

  lemma EvictKeepsShape(s: Pool)
    requires Mapped(s)
    ensures |Evict(s).0.frames| == |s.frames| && Evict(s).0.queues.hotMax == s.queues.hotMax
  {
  }

  lemma LoadKeepsShape(s: Pool, p: PageId, data: Page, pin: bool)
    requires Mapped(s)
    ensures var t := (if pin then LoadAndPin(s, p, data) else LoadIfAbsent(s, p, data)).0;
      |t.frames| == |s.frames| && t.queues.hotMax == s.queues.hotMax
  {
    hide Evict;
    EvictKeepsShape(s);
  }

  /** The number of frames and the hot capacity never change. */
  lemma StepKeepsShape(s: System, a: Action, disk: map<PageId, Page>)
    requires Mapped(s.pool) && Enabled(s, a, disk)
    ensures var t := Next(s, a, disk).pool;
      |t.frames| == |s.pool.frames| && t.queues.hotMax == s.pool.queues.hotMax
  {
    hide LoadAndPin;
    hide LoadIfAbsent;
    match a
    case PinLoading(t, p) => LoadKeepsShape(s.pool, p, disk[p], true);
    case PeekLoading(t, p) => LoadKeepsShape(s.pool, p, disk[p], false);
    case Load(p) => LoadKeepsShape(s.pool, p, disk[p], false);
    case _ =>
  }

  lemma {:induction false} RunKeepsShape(states: seq<System>, actions: seq<Action>, disk: map<PageId, Page>, i: nat)
    requires IsRun(states, actions, disk) && i < |states|
    ensures |states[i].pool.frames| == |states[0].pool.frames|
    ensures states[i].pool.queues.hotMax == states[0].pool.queues.hotMax
  {
    hide Next;
    if i > 0 {
      RunKeepsShape(states, actions, disk, i - 1);
      assert IsStep(states[i - 1], actions[i - 1], states[i], disk);
      StepKeepsShape(states[i - 1], actions[i - 1], disk);
    }
  }

  lemma StepBegins(s: System, a: Action, disk: map<PageId, Page>, t: nat)
    requires Safe(s, disk) && Enabled(s, a, disk) && IsPeeking(Next(s, a, disk), t)
    ensures var r := Next(s, a, disk).threads[t];
      Peeks(s, t, r.page, r.frame) || PeekBegins(Next(s, a, disk), t, r.page, r.frame)
  {
    hide LoadAndPin;
    hide LoadIfAbsent;
    hide Touch;
    if !IsPeeking(s, t) {
      var p := Next(s, a, disk).threads[t].page;
      assert a == PeekCached(t, p) || a == PeekLoading(t, p);
      PeekBeginsInFrame(s, a, disk, t, p);
    }
  }

  /** Whoever reads without a pin began to, in the frame its page was in at that moment. */
  lemma {:induction false} PeekBegan(states: seq<System>, actions: seq<Action>, disk: map<PageId, Page>, t: nat, j: nat)
    returns (i: nat)
    requires IsRun(states, actions, disk) && j < |states| && IsPeeking(states[j], t)
    ensures i <= j && PeekBegins(states[i], t, states[j].threads[t].page, states[j].threads[t].frame)
    ensures forall k :: i <= k <= j ==> IsPeeking(states[k], t)
  {
    hide Next;
    i := j;
    if j > 0 {
      RunSafe(states, actions, disk, j - 1);
      assert IsStep(states[j - 1], actions[j - 1], states[j], disk);
      StepBegins(states[j - 1], actions[j - 1], disk, t);
      if !PeekBegins(states[j], t, states[j].threads[t].page, states[j].threads[t].frame) {
        i := PeekBegan(states, actions, disk, t, j - 1);
      }
    }
  }

  lemma CannotTear(states: seq<System>, actions: seq<Action>, disk: map<PageId, Page>, t: nat, j: nat)
    requires IsRun(states, actions, disk) && j < |states|
    requires var s := states[0].pool;
      |s.frames| == 0 || s.queues.hotMax == 0 || |disk.Keys| <= |s.frames| || VectorsAgree(disk)
    ensures SeesDisk(states[j], t, disk)
  {
    if IsPeeking(states[j], t) {
      var p, f := states[j].threads[t].page, states[j].threads[t].frame;
      var i := PeekBegan(states, actions, disk, t, j);
      RunSafe(states, actions, disk, i);
      RunKeepsShape(states, actions, disk, i);
      if VectorsAgree(disk) {
        PeekedExactly(states, actions, disk, t, p, f, i, j);
        forall k | i <= k < j && actions[k] == ReadWord(t) ensures Agrees(states[k], t, disk) {
          PeekedExactly(states, actions, disk, t, p, f, i, k);
        }
      } else {
        PeekStaysRight(states, actions, disk, t, p, f, i, j);
      }
    }
  }

  // ---------------------------------------------------------------------------------------
  // A run that tears a read in all others
  // ---------------------------------------------------------------------------------------

  /** The first page is loaded and peeked at, the rest fill the pool, and page q takes the place of the first. */
  function TearSketch(pages: seq<PageId>, q: PageId, hotMax: nat, hub: nat, i: nat): Sketch
    requires pages != []
  {
    var n := |pages|;
    if i <= n then Sketch(n, pages[..i], {}, pages[..i], {}, hotMax, hub)
    else Sketch(n, pages[0 := q], {}, pages[1..] + [q], {}, hotMax, hub)
  }

  /** The coordinates of page q read after that. */
  function TearWords(disk: map<PageId, Page>, q: PageId, count: nat): seq<Word> {
    seq(count, i requires 0 <= i < count => Coordinate(disk, q, i))
  }

  function TearThreads(pages: seq<PageId>, q: PageId, disk: map<PageId, Page>, i: nat): map<nat, Thread>
    requires pages != []
  {
    var n := |pages|;
    map[0 := if i == 0 then Idle else Peeking(pages[0], 0, TearWords(disk, q, if i <= n then 0 else i - n - 1))]
  }

  function TearAction(pages: seq<PageId>, q: PageId, i: nat): Action
    requires pages != []
  {
    if i == 0 then PeekLoading(0, pages[0])
    else if i < |pages| then Load(pages[i])
    else if i == |pages| then Load(q)
    else ReadWord(0)
  }

  lemma TearAgrees(pages: seq<PageId>, q: PageId, hotMax: nat, hub: nat, i: nat)
    requires pages != [] && NoRepeats(pages) && q !in pages
    ensures Agree(TearSketch(pages, q, hotMax, hub, i))
  {
    if i > |pages| {
      ChangedPages(pages, 0, q);
      NoRepeatsAppend(pages[1..], q);
      assert pages[0 := q] == [q] + pages[1..];
    }
  }

  ghost function TearState(pages: seq<PageId>, q: PageId, hotMax: nat, hub: nat, disk: map<PageId, Page>,
                           i: nat): System
    requires pages != [] && NoRepeats(pages) && q !in pages
  {
    TearAgrees(pages, q, hotMax, hub, i);
    System(PoolOf(TearSketch(pages, q, hotMax, hub, i), disk), TearThreads(pages, q, disk, i))
  }

  lemma TearLoads(pages: seq<PageId>, q: PageId, hotMax: nat, hub: nat, disk: map<PageId, Page>, i: nat)
    requires pages != [] && NoRepeats(pages) && AllOnDisk(pages, q, disk) && hotMax >= 1 && i <= |pages|
    ensures IsStep(TearState(pages, q, hotMax, hub, disk, i), TearAction(pages, q, i),
                   TearState(pages, q, hotMax, hub, disk, i + 1), disk)
  {
    hide PoolOf;
    hide LoadIfAbsent;
    hide Mapped;
    var n, k := |pages|, TearSketch(pages, q, hotMax, hub, i);
    TearAgrees(pages, q, hotMax, hub, i);
    if i < n {
      assert pages[..i + 1] == pages[..i] + [pages[i]];
      LoadsFree(k, pages[i], false, disk);
      assert Loaded(k, pages[i], false) == TearSketch(pages, q, hotMax, hub, i + 1);
    } else {
      assert pages[..n] == pages;
      LoadsReplacing(k, 0, q, disk);
      assert Replaced(k, 0, q) == TearSketch(pages, q, hotMax, hub, i + 1);
    }
    assert TearWords(disk, q, 0) == [];
    if i == 0 {
      assert TearThreads(pages, q, disk, 0)[0 := Peeking(pages[0], 0, [])] == TearThreads(pages, q, disk, 1);
    } else {
      assert TearThreads(pages, q, disk, i) == TearThreads(pages, q, disk, i + 1);
    }
  }

  lemma TearReads(pages: seq<PageId>, q: PageId, hotMax: nat, hub: nat, disk: map<PageId, Page>, i: nat)
    requires pages != [] && NoRepeats(pages) && AllOnDisk(pages, q, disk) && |disk[q]| == DISK_RECORD_SIZE
    requires |pages| < i <= |pages| + DEFAULT_DIMENSION
    ensures IsStep(TearState(pages, q, hotMax, hub, disk, i), TearAction(pages, q, i),
                   TearState(pages, q, hotMax, hub, disk, i + 1), disk)
  {
    hide Coordinate;
    var n, s := |pages|, TearState(pages, q, hotMax, hub, disk, i);
    TearAgrees(pages, q, hotMax, hub, i);
    SketchMapped(TearSketch(pages, q, hotMax, hub, i), disk);
    assert s.pool.frames[0].data == disk[q];
    ReadStep(s.pool, s.threads, 0, q, disk);
    assert TearWords(disk, q, i - n - 1) + [Coordinate(disk, q, i - n - 1)] == TearWords(disk, q, i - n);
  }

  lemma TearStarts(pages: seq<PageId>, q: PageId, hotMax: nat, hub: nat, disk: map<PageId, Page>)
    requires pages != [] && NoRepeats(pages) && q !in pages
    requires forall o :: o in disk ==> |disk[o]| == DISK_RECORD_SIZE
    ensures Initial(TearState(pages, q, hotMax, hub, disk, 0), disk)
    ensures TearState(pages, q, hotMax, hub, disk, 0).pool == EmptyPool(|pages|, hotMax, hub)
  {
    assert pages[..0] == [];
    TearAgrees(pages, q, hotMax, hub, 0);
    SketchConsistent(TearSketch(pages, q, hotMax, hub, 0), disk);
    SketchEmpty(|pages|, hotMax, hub, disk);
  }

  /** Where page q differs from the first page in some coordinate, the read of that coordinate is torn. */
  lemma TearRun(pages: seq<PageId>, q: PageId, at: nat, hotMax: nat, hub: nat, disk: map<PageId, Page>)
    requires pages != [] && NoRepeats(pages) && AllOnDisk(pages, q, disk) && hotMax >= 1 && at < DEFAULT_DIMENSION
    requires forall o :: o in disk ==> |disk[o]| == DISK_RECORD_SIZE
    requires Coordinate(disk, q, at) != Coordinate(disk, pages[0], at)
    ensures !ReadsStayRight(|pages|, hotMax, hub, disk)
  {
    hide IsStep;
    hide Initial;
    hide Coordinate;
    hide TearAction;
    var last := |pages| + at + 2;
    var states := seq(last + 1, i requires 0 <= i < last + 1 => TearState(pages, q, hotMax, hub, disk, i));
    var actions := seq(last, i requires 0 <= i < last => TearAction(pages, q, i));
    TearStarts(pages, q, hotMax, hub, disk);
    forall i | 0 <= i < last ensures IsStep(states[i], actions[i], states[i + 1], disk) {
      if i <= |pages| { TearLoads(pages, q, hotMax, hub, disk, i); } else { TearReads(pages, q, hotMax, hub, disk, i); }
    }
    assert IsRunOf(states, actions, EmptyPool(|pages|, hotMax, hub), disk);
    assert states[last].threads[0].words[at] == Coordinate(disk, q, at);
    assert !SeesDisk(states[last], 0, disk);
  }

  /** As many pages as wanted, a given one first. */
  lemma {:induction false} PickPages(from: set<PageId>, first: PageId, count: nat) returns (pages: seq<PageId>)
    requires first in from && 1 <= count <= |from|
    ensures |pages| == count && NoRepeats(pages) && pages[0] == first && forall p :: p in pages ==> p in from
  {
    pages := [first];
    if count > 1 {
      pages := PickPages(from, first, count - 1);
      var seen := SetOf(pages);
      NoRepeatsCount(pages);
      if from <= seen { SubsetSize(from, seen); }
      var p :| p in from && p !in seen;
      NoRepeatsAppend(pages, p);
      pages := pages + [p];
    }
  }

  /** For which pools reads without a pin are right in every run: exactly those from which nothing is ever
      evicted, for want of frames, of hot capacity or of pages to load, or if all vectors are equal. */
  lemma ReadsStayRightExactly(size: nat, hotMax: nat, hub: nat, disk: map<PageId, Page>)
    requires forall o :: o in disk ==> |disk[o]| == DISK_RECORD_SIZE
    ensures ReadsStayRight(size, hotMax, hub, disk)
       <==> size == 0 || hotMax == 0 || |disk.Keys| <= size || VectorsAgree(disk)
  {
    hide Coordinate;
    if size == 0 || hotMax == 0 || |disk.Keys| <= size || VectorsAgree(disk) {
      forall states, actions, j: nat, t: nat
        | IsRunOf(states, actions, EmptyPool(size, hotMax, hub), disk) && j < |states|
        ensures SeesDisk(states[j], t, disk)
      {
        CannotTear(states, actions, disk, t, j);
      }
    } else {
      var p, q, at := Differing(disk);
      var pages := PickPages(disk.Keys - {q}, p, size);
      TearRun(pages, q, at, hotMax, hub, disk);
    }
  }

  lemma Differing(disk: map<PageId, Page>) returns (p: PageId, q: PageId, at: nat)
    requires !VectorsAgree(disk)
    ensures p in disk && q in disk && at < DEFAULT_DIMENSION && Coordinate(disk, p, at) != Coordinate(disk, q, at)
  {
    p, q, at :| p in disk && q in disk && Coordinate(disk, p, at) != Coordinate(disk, q, at);
  }
}
