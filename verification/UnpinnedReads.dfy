/** Reads without a pin. */
module UnpinnedReads {
  // The fallback of a full pool parses a frame it was given without a pin, so the frame may be given to
  // another page between two of its reads: when such reads see the disk's vector, and when not.

  import opened Options
  import opened Bytes
  import opened Vectors
  import opened Ranking
  import opened DiskRecords
  import opened EvictionPolicy
  import opened BufferPool
  import opened PoolSteps
  import opened PoolSketches
  import opened DiskReaders
  import opened PinProtocol

  /** A frame holds the bytes of some page on disk. */
  ghost predicate Stamped(s: Pool, f: nat, disk: map<PageId, Page>) {
    f < |s.frames| && exists q :: q in disk && s.frames[f].data == disk[q]
  }

  /** A frame's bytes only change when a page is loaded into it. */
  ghost predicate KeepsOrLoads(s: Pool, t: Pool, f: nat, disk: map<PageId, Page>) {
    f < |s.frames| == |t.frames| && (t.frames[f].data == s.frames[f].data || Stamped(t, f, disk))
  }

  lemma EvictKeepsData(s: Pool, f: nat)
    requires Mapped(s) && f < |s.frames|
    ensures |Evict(s).0.frames| == |s.frames| && Evict(s).0.frames[f].data == s.frames[f].data
  {
  }

  lemma TakeFrameKeepsData(s: Pool, f: nat)
    requires Mapped(s) && f < |s.frames|
    ensures |TakeFrame(s).0.frames| == |s.frames| && TakeFrame(s).0.frames[f].data == s.frames[f].data
  {
    hide Evict;
    EvictKeepsData(s, f);
  }

  lemma LoadKeepsData(s: Pool, p: PageId, pin: bool, f: nat, disk: map<PageId, Page>)
    requires Mapped(s) && f < |s.frames| && p in disk
    ensures KeepsOrLoads(s, (if pin then LoadAndPin(s, p, disk[p]) else LoadIfAbsent(s, p, disk[p])).0, f, disk)
  {
    hide TakeFrame;
    TakeFrameKeepsData(s, f);
  }

  lemma StepKeepsStamp(s: System, a: Action, disk: map<PageId, Page>, f: nat)
    requires Mapped(s.pool) && Enabled(s, a, disk) && Stamped(s.pool, f, disk)
    ensures Stamped(Next(s, a, disk).pool, f, disk)
  {
    hide LoadAndPin;
    hide LoadIfAbsent;
    match a
    case PinLoading(t, p) => LoadKeepsData(s.pool, p, true, f, disk);
    case PeekLoading(t, p) => LoadKeepsData(s.pool, p, false, f, disk);
    case Load(p) => LoadKeepsData(s.pool, p, false, f, disk);
    case _ => assert Next(s, a, disk).pool.frames[f].data == s.pool.frames[f].data;
  }

  predicate Peeks(s: System, t: nat, p: PageId, f: nat) {
    IsPeeking(s, t) && s.threads[t].page == p && s.threads[t].frame == f
  }

  /** A thread has just been given the frame of a page. */
  predicate PeekBegins(s: System, t: nat, p: PageId, f: nat) {
    Peeks(s, t, p, f) && s.threads[t].words == [] && p in s.pool.table && s.pool.table[p] == f
  }

  /** The coordinate a thread is about to read has, on the page whose bytes the frame holds, the value it
      has on the page asked for. */
  ghost predicate Agrees(s: System, t: nat, disk: map<PageId, Page>) {
    IsPeeking(s, t) ==>
      var r := s.threads[t];
      forall q :: q in disk && r.frame < |s.pool.frames| && s.pool.frames[r.frame].data == disk[q] ==>
        Coordinate(disk, q, |r.words|) == Coordinate(disk, r.page, |r.words|)
  }

  function Coordinate(disk: map<PageId, Page>, p: PageId, i: nat): Word {
    if p in disk && |disk[p]| == DISK_RECORD_SIZE && i < DEFAULT_DIMENSION
    then WordAt(disk[p], DISK_VECTOR_OFFSET + 4 * i) else 0
  }

  /** What a thread has read so far is the vector of the page it asked for. */
  ghost predicate SeesDisk(s: System, t: nat, disk: map<PageId, Page>) {
    IsPeeking(s, t) ==>
      forall i :: 0 <= i < |s.threads[t].words| ==> s.threads[t].words[i] == Coordinate(disk, s.threads[t].page, i)
  }

  /** A peeking thread is given the frame its page is in. */
  lemma PeekBeginsInFrame(s: System, a: Action, disk: map<PageId, Page>, t: nat, p: PageId)
    requires Safe(s, disk) && Enabled(s, a, disk) && (a == PeekCached(t, p) || a == PeekLoading(t, p))
    ensures var next := Next(s, a, disk);
      IsIdle(next, t) || exists f :: PeekBegins(next, t, p, f)
  {
    var next := Next(s, a, disk);
    if a == PeekLoading(t, p) && p !in s.pool.table { LoadKeeps(s.pool, p, false, disk); }
    if IsPeeking(next, t) { assert PeekBegins(next, t, p, next.threads[t].frame); }
  }

  /** Whether it is given one: exactly when the page is resident, or can be loaded. No other thread is concerned. */
  lemma PeeksExactly(s: System, t: nat, p: PageId, load: bool, disk: map<PageId, Page>)
    requires Safe(s, disk) && IsIdle(s, t) && (load ==> p in disk)
    ensures var next := Next(s, if load then PeekLoading(t, p) else PeekCached(t, p), disk);
      && (IsPeeking(next, t) <==> p in s.pool.table || (load && (s.pool.free != [] || CanEvict(s.pool))))
      && (IsPeeking(next, t) ==> p in next.pool.table && PeekBegins(next, t, p, next.pool.table[p]))
      && (!IsPeeking(next, t) ==> IsIdle(next, t))
      && next.threads.Keys == s.threads.Keys
      && forall u :: u in s.threads && u != t ==> next.threads[u] == s.threads[u]
  {
    hide LoadIfAbsent;
    hide GetAndPin;
    hide Touch;
    hide ReadsDisk;
    hide CanEvict;
    hide OnlyPins;
    hide Vacated;
    if p in s.pool.table {
      LoadResidentExactly(s.pool, p, if load then disk[p] else []);
      LookupKeepsTable(s.pool, p);
    } else if load {
      LoadExactly(s.pool, p, disk[p], false);
    }
  }

  lemma LookupKeepsTable(s: Pool, p: PageId)
    requires Mapped(s)
    ensures GetPage(s, p).0.table == s.table
  {
  }

  lemma StepKeepsPeek(s: System, a: Action, disk: map<PageId, Page>, t: nat, p: PageId, f: nat)
    requires Safe(s, disk) && Enabled(s, a, disk) && Peeks(s, t, p, f) && Stamped(s.pool, f, disk)
    requires IsPeeking(Next(s, a, disk), t)
    ensures Peeks(Next(s, a, disk), t, p, f)
    ensures a != ReadWord(t) ==> Next(s, a, disk).threads[t] == s.threads[t]
    ensures a == ReadWord(t) ==> (SeesDisk(Next(s, a, disk), t, disk) <==> SeesDisk(s, t, disk) && Agrees(s, t, disk))
  {
    hide LoadAndPin;
    hide LoadIfAbsent;
    hide Touch;
    var next := Next(s, a, disk);
    if a == ReadWord(t) {
      var q :| q in disk && s.pool.frames[f].data == disk[q];
      var before, after := s.threads[t].words, next.threads[t].words;
      assert after == before + [Coordinate(disk, q, |before|)];
      assert after[|before|] == Coordinate(disk, q, |before|);
      assert forall i :: 0 <= i < |before| ==> after[i] == before[i];
    }
  }

  ghost predicate AgreesFrom(states: seq<System>, actions: seq<Action>, t: nat, disk: map<PageId, Page>, i: nat, j: nat)
    requires j <= |actions| < |states|
  {
    forall k :: i <= k < j && actions[k] == ReadWord(t) ==> Agrees(states[k], t, disk)
  }

  lemma OneMoreStep(states: seq<System>, actions: seq<Action>, t: nat, disk: map<PageId, Page>, i: nat, k: nat)
    requires i <= k < |actions| < |states|
    ensures AgreesFrom(states, actions, t, disk, i, k + 1) <==>
      AgreesFrom(states, actions, t, disk, i, k) && (actions[k] == ReadWord(t) ==> Agrees(states[k], t, disk))
  {
  }

  lemma BeginsStamped(s: System, disk: map<PageId, Page>, t: nat, p: PageId, f: nat)
    requires Safe(s, disk) && PeekBegins(s, t, p, f)
    ensures Stamped(s.pool, f, disk) && SeesDisk(s, t, disk)
  {
    assert s.pool.frames[f].data == disk[p];
  }

  /** A thread that reads without a pin has read the vector of its page exactly when at each of its reads the
      page then in the frame, whichever it was, had the same value in that coordinate. */
  lemma {:induction false} PeekedExactly(states: seq<System>, actions: seq<Action>, disk: map<PageId, Page>, t: nat,
                                         p: PageId, f: nat, i: nat, j: nat)
    requires IsRun(states, actions, disk) && i <= j < |states| && PeekBegins(states[i], t, p, f)
    requires forall k :: i <= k <= j ==> IsPeeking(states[k], t)
    ensures Peeks(states[j], t, p, f) && Stamped(states[j].pool, f, disk)
    ensures SeesDisk(states[j], t, disk) <==> AgreesFrom(states, actions, t, disk, i, j)
  {
    hide AgreesFrom;
    hide SeesDisk;
    hide Agrees;
    hide Stamped;
    hide Next;
    if i < j {
      var k := j - 1;
      PeekedExactly(states, actions, disk, t, p, f, i, k);
      RunSafe(states, actions, disk, k);
      assert IsStep(states[k], actions[k], states[k + 1], disk);
      StepKeepsStamp(states[k], actions[k], disk, f);
      StepKeepsPeek(states[k], actions[k], disk, t, p, f);
      OneMoreStep(states, actions, t, disk, i, k);
      if actions[k] != ReadWord(t) { SeenIsThreads(states[k], states[j], t, disk); }
    } else {
      RunSafe(states, actions, disk, i);
      BeginsStamped(states[i], disk, t, p, f);
      NoStep(states, actions, t, disk, i);
    }
  }

  lemma NoStep(states: seq<System>, actions: seq<Action>, t: nat, disk: map<PageId, Page>, i: nat)
    requires i <= |actions| < |states|
    ensures AgreesFrom(states, actions, t, disk, i, i)
  {
  }

  lemma SeenIsThreads(s: System, next: System, t: nat, disk: map<PageId, Page>)
    requires IsPeeking(s, t) && IsPeeking(next, t) && next.threads[t] == s.threads[t]
    ensures SeesDisk(next, t, disk) <==> SeesDisk(s, t, disk)
  {
  }

  /** A frame that was given to no other page by the time of the last read has been read right, pinned or not. */
  lemma UndisturbedPeek(states: seq<System>, actions: seq<Action>, disk: map<PageId, Page>, t: nat, p: PageId, f: nat,
                        i: nat, j: nat)
    requires IsRun(states, actions, disk) && i <= j < |states| && PeekBegins(states[i], t, p, f)
    requires forall k :: i <= k <= j ==> IsPeeking(states[k], t)
    requires forall k :: i <= k < j && actions[k] == ReadWord(t) ==>
      f < |states[k].pool.frames| && p in disk && states[k].pool.frames[f].data == disk[p]
    ensures SeesDisk(states[j], t, disk)
  {
    PeekedExactly(states, actions, disk, t, p, f, i, j);
    forall k | i <= k < j && actions[k] == ReadWord(t) ensures Agrees(states[k], t, disk) {
      PeekedExactly(states, actions, disk, t, p, f, i, k);
    }
  }

  lemma CoordinatesAreVector(words: seq<Word>, disk: map<PageId, Page>, p: PageId)
    requires p in disk && |disk[p]| == DISK_RECORD_SIZE && |words| == DEFAULT_DIMENSION
    requires forall i :: 0 <= i < |words| ==> words[i] == Coordinate(disk, p, i)
    ensures words == PageVector(disk[p])
  {
    forall i | 0 <= i < |words| ensures words[i] == PageVector(disk[p])[i] {
      WordsAtEach(disk[p], DISK_VECTOR_OFFSET, DEFAULT_DIMENSION, i);
    }
  }

  lemma {:induction false} WordsAtEach(s: seq<Byte>, at: nat, count: nat, i: nat)
    requires at + 4 * count <= |s| && i < count
    ensures WordsAt(s, at, count)[i] == WordAt(s, at + 4 * i)
  {
    if i < count - 1 { WordsAtEach(s, at, count - 1, i); }
  }

  /** A whole vector read right gives the distance of the disk record. */
  lemma PeekedDistance(s: System, t: nat, query: Vector, disk: map<PageId, Page>)
    requires Safe(s, disk) && IsPeeking(s, t) && SeesDisk(s, t, disk) && s.threads[t].page in disk
    requires |query| <= DEFAULT_DIMENSION == |s.threads[t].words|
    ensures |disk[s.threads[t].page]| == DISK_RECORD_SIZE
    ensures L2(query, FloatValues(s.threads[t].words), |query|)
         == L2(query, DiskVector(disk, s.threads[t].page), |query|)
  {
    hide Coordinate;
    hide PageVector;
    hide FloatValues;
    hide L2;
    hide Consistent;
    hide ReadsDisk;
    CoordinatesAreVector(s.threads[t].words, disk, s.threads[t].page);
  }

  // ---------------------------------------------------------------------------------------
  // Reads that cannot be torn
  // ---------------------------------------------------------------------------------------

  /** What can be known before a read starts: the page's eviction was refused once, or the hot queue has no
      capacity, so that nothing is ever evicted, or the pool has a frame for every page on disk. */
  ghost predicate StaysPut(s: Pool, p: PageId, disk: map<PageId, Page>) {
    p in s.table && (p in s.refused || s.queues.hotMax == 0 || |disk.Keys| <= |s.frames|)
  }

  lemma {:induction false} ValidPages(s: Pool, i: nat) returns (pages: set<PageId>)
    requires Mapped(s) && s.free == [] && i <= |s.frames|
    ensures |pages| == i && pages <= s.table.Keys && forall p :: p in pages ==> s.table[p] < i
  {
    pages := {};
    if i > 0 {
      pages := ValidPages(s, i - 1);
      assert s.frames[i - 1].isValid;
      pages := pages + {s.frames[i - 1].pageId.value};
    }
  }

  /** A pool without a free frame holds as many pages as it has frames. */
  lemma FullPool(s: Pool, disk: map<PageId, Page>, p: PageId)
    requires Mapped(s) && Faithful(s, disk) && s.free == [] && p in disk && p !in s.table
    ensures |disk.Keys| > |s.frames|
  {
    var pages := ValidPages(s, |s.frames|);
    assert forall o :: o in s.table.Keys ==> o in disk.Keys;
    SubsetSize(pages + {p}, disk.Keys);
    assert |pages + {p}| == |pages| + 1;
  }

  /** An eviction leaves such a page where it is. */
  lemma EvictLeaves(s: Pool, p: PageId)
    requires Consistent(s) && p in s.table && (p in s.refused || s.queues.hotMax == 0)
    ensures var t := Evict(s).0;
      p in t.table && t.table[p] == s.table[p] && s.refused <= t.refused && t.queues.hotMax == s.queues.hotMax
  {
    hide PickVictim;
    NoVictimExactly(s.queues);
    PickVictimKeeps(s.queues);
    VictimIsResident(s);
  }

  lemma LoadLeaves(s: Pool, o: PageId, pin: bool, p: PageId, disk: map<PageId, Page>)
    requires Consistent(s) && Faithful(s, disk) && o in disk && o !in s.table && StaysPut(s, p, disk)
    ensures var t := (if pin then LoadAndPin(s, o, disk[o]) else LoadIfAbsent(s, o, disk[o])).0;
      StaysPut(t, p, disk) && t.table[p] == s.table[p]
  {
    hide Evict;
    hide QueuesAgree;
    hide PinsAgree;
    if s.free == [] {
      FullPool(s, disk, o);
      EvictLeaves(s, p);
    }
    EvictKeeps(s, disk);
  }

  lemma TouchLeaves(s: Pool, o: PageId, p: PageId, disk: map<PageId, Page>)
    requires Mapped(s) && o in s.table && StaysPut(s, p, disk)
    ensures StaysPut(Touch(s, o), p, disk) && Touch(s, o).table == s.table
  {
  }

  lemma PresentLoad(s: Pool, o: PageId, disk: map<PageId, Page>)
    requires Mapped(s) && o in s.table && o in disk
    ensures LoadIfAbsent(s, o, disk[o]).0 == s
  {
  }

  lemma PinLeaves(s: Pool, o: PageId, p: PageId, disk: map<PageId, Page>)
    requires Mapped(s) && o in s.table && StaysPut(s, p, disk)
    ensures var t := GetAndPin(s, o).0;
      StaysPut(t, p, disk) && t.table[p] == s.table[p]
  {
    TouchLeaves(s, o, p, disk);
    var touched := Touch(s, o);
    assert touched.frames == s.frames && touched.refused == s.refused && touched.table == s.table;
  }

  lemma PinCachedLeaves(s: Pool, o: PageId, p: PageId, disk: map<PageId, Page>)
    requires Mapped(s) && StaysPut(s, p, disk)
    ensures var t := GetAndPin(s, o).0;
      StaysPut(t, p, disk) && t.table[p] == s.table[p]
  {
    if o in s.table { PinLeaves(s, o, p, disk); }
  }

  /** Every step leaves such a page in its frame, and such a page. */
  lemma StepLeaves(s: System, a: Action, disk: map<PageId, Page>, p: PageId)
    requires Safe(s, disk) && Enabled(s, a, disk) && StaysPut(s.pool, p, disk)
    ensures StaysPut(Next(s, a, disk).pool, p, disk) && Next(s, a, disk).pool.table[p] == s.pool.table[p]
  {
    hide ReadsDisk;
    hide Touch;
    hide GetAndPin;
    hide LoadIfAbsent;
    match a
    case PinCached(t, o) => PinCachedLeaves(s.pool, o, p, disk);
    case PinLoading(t, o) =>
      if o in s.pool.table { PinLeaves(s.pool, o, p, disk); } else { LoadLeaves(s.pool, o, true, p, disk); }
    case PeekCached(t, o) => if o in s.pool.table { TouchLeaves(s.pool, o, p, disk); }
    case PeekLoading(t, o) =>
      if o in s.pool.table { PresentLoad(s.pool, o, disk); } else { LoadLeaves(s.pool, o, false, p, disk); }
    case Look(o) => if o in s.pool.table { TouchLeaves(s.pool, o, p, disk); }
    case Load(o) =>
      if o in s.pool.table { PresentLoad(s.pool, o, disk); } else { LoadLeaves(s.pool, o, false, p, disk); }
    case _ =>
  }

  lemma {:induction false} RunLeaves(states: seq<System>, actions: seq<Action>, disk: map<PageId, Page>, p: PageId,
                                     i: nat, j: nat)
    requires IsRun(states, actions, disk) && i <= j < |states| && StaysPut(states[i].pool, p, disk)
    ensures StaysPut(states[j].pool, p, disk) && states[j].pool.table[p] == states[i].pool.table[p]
  {
    hide StaysPut;
    hide Next;
    if i < j {
      RunLeaves(states, actions, disk, p, i, j - 1);
      RunSafe(states, actions, disk, j - 1);
      assert IsStep(states[j - 1], actions[j - 1], states[j], disk);
      StepLeaves(states[j - 1], actions[j - 1], disk, p);
    }
    LeftInTable(states[j].pool, p, disk);
  }

  lemma LeftInTable(s: Pool, p: PageId, disk: map<PageId, Page>)
    ensures StaysPut(s, p, disk) ==> p in s.table
  {
  }

  /** A read without a pin that starts on such a page sees the disk's vector in every continuation. */
  lemma PeekStaysRight(states: seq<System>, actions: seq<Action>, disk: map<PageId, Page>, t: nat, p: PageId, f: nat,
                       i: nat, j: nat)
    requires IsRun(states, actions, disk) && i <= j < |states| && PeekBegins(states[i], t, p, f)
    requires forall k :: i <= k <= j ==> IsPeeking(states[k], t)
    requires StaysPut(states[i].pool, p, disk)
    ensures SeesDisk(states[j], t, disk)
  {
    forall k | i <= k < j && actions[k] == ReadWord(t)
      ensures f < |states[k].pool.frames| && p in disk && states[k].pool.frames[f].data == disk[p]
    {
      RunLeaves(states, actions, disk, p, i, k);
      RunSafe(states, actions, disk, k);
    }
    UndisturbedPeek(states, actions, disk, t, p, f, i, j);
  }

  // ---------------------------------------------------------------------------------------
  // A torn read
  // ---------------------------------------------------------------------------------------

  lemma LoadStep(s: Pool, t: Pool, threads: map<nat, Thread>, q: PageId, disk: map<PageId, Page>)
    requires Mapped(s) && q in disk && LoadIfAbsent(s, q, disk[q]).0 == t
    ensures IsStep(System(s, threads), Load(q), System(t, threads), disk)
  {
    hide LoadIfAbsent;
    hide Mapped;
  }

  lemma PinStep(s: Pool, t: Pool, threads: map<nat, Thread>, u: nat, p: PageId,
                frame: Option<nat>, disk: map<PageId, Page>)
    requires Mapped(s) && p in disk && u in threads && threads[u].Idle? && LoadAndPin(s, p, disk[p]) == (t, frame)
    ensures var next := if frame.Some? then threads[u := Reading(p, frame.value, [])] else threads;
      IsStep(System(s, threads), PinLoading(u, p), System(t, next), disk)
  {
    hide LoadAndPin;
    hide Mapped;
  }

  lemma PeekStep(s: Pool, t: Pool, threads: map<nat, Thread>, u: nat, p: PageId, f: nat, disk: map<PageId, Page>)
    requires Mapped(s) && p in disk && u in threads && threads[u].Idle? && LoadIfAbsent(s, p, disk[p]) == (t, Some(f))
    ensures IsStep(System(s, threads), PeekLoading(u, p), System(t, threads[u := Peeking(p, f, [])]), disk)
  {
    hide LoadIfAbsent;
    hide Mapped;
  }

  /** A read takes the coordinate of the page in the frame. */
  lemma ReadStep(s: Pool, threads: map<nat, Thread>, u: nat, q: PageId, disk: map<PageId, Page>)
    requires Mapped(s) && u in threads && threads[u].Peeking? && q in disk && |disk[q]| == DISK_RECORD_SIZE
    requires threads[u].frame < |s.frames| && s.frames[threads[u].frame].data == disk[q]
    requires |threads[u].words| < DEFAULT_DIMENSION
    ensures var r := threads[u];
      IsStep(System(s, threads), ReadWord(u),
             System(s, threads[u := r.(words := r.words + [Coordinate(disk, q, |r.words|)])]), disk)
  {
    hide Mapped;
  }

  /** Four frames: one thread holds page a; b, c and d are queued; then p takes the frame of b, and b, c and d
      are loaded again, the last into the frame of p. */
  function TornSketch(a: PageId, b: PageId, c: PageId, d: PageId, p: PageId, hub: nat, i: nat): Sketch {
    match i
    case 0 => Sketch(4, [], {}, [], {}, 1, hub)
    case 1 => Sketch(4, [a], {a}, [a], {}, 1, hub)
    case 2 => Sketch(4, [a, b], {a}, [a, b], {}, 1, hub)
    case 3 => Sketch(4, [a, b, c], {a}, [a, b, c], {}, 1, hub)
    case 4 => Sketch(4, [a, b, c, d], {a}, [a, b, c, d], {}, 1, hub)
    case 5 => Sketch(4, [a, b, c, d], {a}, [b, c, d], {a}, 1, hub)
    case 6 => Sketch(4, [a, p, c, d], {a}, [c, d, p], {a}, 1, hub)
    case 7 => Sketch(4, [a, p, b, d], {a}, [d, p, b], {a}, 1, hub)
    case 8 => Sketch(4, [a, p, b, c], {a}, [p, b, c], {a}, 1, hub)
    case _ => Sketch(4, [a, d, b, c], {a}, [b, c, d], {a}, 1, hub)
  }

  predicate AllDifferent(a: PageId, b: PageId, c: PageId, d: PageId, p: PageId) {
    a != b && a != c && a != d && a != p && b != c && b != d && b != p && c != d && c != p && d != p
  }

  lemma TornAgrees(a: PageId, b: PageId, c: PageId, d: PageId, p: PageId, hub: nat, i: nat)
    requires AllDifferent(a, b, c, d, p) && i <= 9
    ensures Agree(TornSketch(a, b, c, d, p, hub, i))
  {
    if i >= 5 { TornAgreesLater(a, b, c, d, p, hub, i); }
  }

  lemma TornAgreesLater(a: PageId, b: PageId, c: PageId, d: PageId, p: PageId, hub: nat, i: nat)
    requires AllDifferent(a, b, c, d, p) && 5 <= i <= 9
    ensures Agree(TornSketch(a, b, c, d, p, hub, i))
  {
  }

  lemma TornFill(a: PageId, b: PageId, c: PageId, d: PageId, p: PageId, hub: nat)
    ensures Loaded(TornSketch(a, b, c, d, p, hub, 0), a, true) == TornSketch(a, b, c, d, p, hub, 1)
    ensures Loaded(TornSketch(a, b, c, d, p, hub, 1), b, false) == TornSketch(a, b, c, d, p, hub, 2)
    ensures Loaded(TornSketch(a, b, c, d, p, hub, 2), c, false) == TornSketch(a, b, c, d, p, hub, 3)
    ensures Loaded(TornSketch(a, b, c, d, p, hub, 3), d, false) == TornSketch(a, b, c, d, p, hub, 4)
  {
  }

  lemma TornTurnOver(a: PageId, b: PageId, c: PageId, d: PageId, p: PageId, hub: nat)
    requires AllDifferent(a, b, c, d, p)
    ensures Refusing(TornSketch(a, b, c, d, p, hub, 4)) == TornSketch(a, b, c, d, p, hub, 5)
    ensures Replaced(TornSketch(a, b, c, d, p, hub, 5), 1, p) == TornSketch(a, b, c, d, p, hub, 6)
    ensures Replaced(TornSketch(a, b, c, d, p, hub, 6), 2, b) == TornSketch(a, b, c, d, p, hub, 7)
    ensures Replaced(TornSketch(a, b, c, d, p, hub, 7), 3, c) == TornSketch(a, b, c, d, p, hub, 8)
    ensures Replaced(TornSketch(a, b, c, d, p, hub, 8), 1, d) == TornSketch(a, b, c, d, p, hub, 9)
  {
  }

  function TornPool(a: PageId, b: PageId, c: PageId, d: PageId, p: PageId, hub: nat,
                    disk: map<PageId, Page>, i: nat): Pool
    requires AllDifferent(a, b, c, d, p)
  {
    var k := if i <= 9 then i else 9;
    TornAgrees(a, b, c, d, p, hub, k);
    PoolOf(TornSketch(a, b, c, d, p, hub, k), disk)
  }

  /** The loads of the run, one after the other. */
  lemma TornLoads(a: PageId, b: PageId, c: PageId, d: PageId, p: PageId, hub: nat, disk: map<PageId, Page>)
    requires AllDifferent(a, b, c, d, p) && a in disk && b in disk && c in disk && d in disk && p in disk
    ensures forall i: nat :: i <= 9 ==> Mapped(TornPool(a, b, c, d, p, hub, disk, i))
    ensures LoadAndPin(TornPool(a, b, c, d, p, hub, disk, 0), a, disk[a])
            == (TornPool(a, b, c, d, p, hub, disk, 1), Some(0))
    ensures LoadIfAbsent(TornPool(a, b, c, d, p, hub, disk, 1), b, disk[b]).0 == TornPool(a, b, c, d, p, hub, disk, 2)
    ensures LoadIfAbsent(TornPool(a, b, c, d, p, hub, disk, 2), c, disk[c]).0 == TornPool(a, b, c, d, p, hub, disk, 3)
    ensures LoadIfAbsent(TornPool(a, b, c, d, p, hub, disk, 3), d, disk[d]).0 == TornPool(a, b, c, d, p, hub, disk, 4)
    ensures LoadAndPin(TornPool(a, b, c, d, p, hub, disk, 4), p, disk[p])
            == (TornPool(a, b, c, d, p, hub, disk, 5), None)
    ensures LoadIfAbsent(TornPool(a, b, c, d, p, hub, disk, 5), p, disk[p])
            == (TornPool(a, b, c, d, p, hub, disk, 6), Some(1))
    ensures LoadIfAbsent(TornPool(a, b, c, d, p, hub, disk, 6), b, disk[b]).0 == TornPool(a, b, c, d, p, hub, disk, 7)
    ensures LoadIfAbsent(TornPool(a, b, c, d, p, hub, disk, 7), c, disk[c]).0 == TornPool(a, b, c, d, p, hub, disk, 8)
    ensures LoadIfAbsent(TornPool(a, b, c, d, p, hub, disk, 8), d, disk[d]).0 == TornPool(a, b, c, d, p, hub, disk, 9)
  {
    hide LoadAndPin;
    hide LoadIfAbsent;
    hide PoolOf;
    hide Mapped;
    hide Agree;
    TornFill(a, b, c, d, p, hub);
    TornTurnOver(a, b, c, d, p, hub);
    forall i: nat | i <= 9
      ensures Agree(TornSketch(a, b, c, d, p, hub, i)) && Mapped(TornPool(a, b, c, d, p, hub, disk, i))
    {
      TornAgrees(a, b, c, d, p, hub, i);
      SketchMapped(TornSketch(a, b, c, d, p, hub, i), disk);
    }
    LoadsFree(TornSketch(a, b, c, d, p, hub, 0), a, true, disk);
    LoadsFree(TornSketch(a, b, c, d, p, hub, 1), b, false, disk);
    LoadsFree(TornSketch(a, b, c, d, p, hub, 2), c, false, disk);
    LoadsFree(TornSketch(a, b, c, d, p, hub, 3), d, false, disk);
    LoadsRefused(TornSketch(a, b, c, d, p, hub, 4), p, true, disk);
    LoadsReplacing(TornSketch(a, b, c, d, p, hub, 5), 1, p, disk);
    LoadsReplacing(TornSketch(a, b, c, d, p, hub, 6), 2, b, disk);
    LoadsReplacing(TornSketch(a, b, c, d, p, hub, 7), 3, c, disk);
    LoadsReplacing(TornSketch(a, b, c, d, p, hub, 8), 1, d, disk);
  }

  /** What frame 1 holds before and after the page in it is replaced. */
  lemma TornFrames(a: PageId, b: PageId, c: PageId, d: PageId, p: PageId, hub: nat, disk: map<PageId, Page>)
    requires AllDifferent(a, b, c, d, p) && d in disk && p in disk
    ensures var before, after := TornPool(a, b, c, d, p, hub, disk, 6), TornPool(a, b, c, d, p, hub, disk, 9);
      |before.frames| == |after.frames| == 4 && before.frames[1].data == disk[p] && after.frames[1].data == disk[d]
  {
  }

  /** The two threads: the first pins page a from some step on, the other reads page p without a pin. */
  function TornThreads(holds: bool, a: PageId, reader: Thread): map<nat, Thread> {
    map[0 := reader, 1 := if holds then Reading(a, 0, []) else Idle]
  }

  /** A torn read in the pool a reader has with four frames. A thread pins a page, three others are loaded, and a
      pinned load of p is refused: the pool is full. The fallback loads p without a pin and reads its first
      coordinate; three loads later the frame holds another page, whose second coordinate it reads. */
  lemma TornReadCounterexample(a: PageId, b: PageId, c: PageId, d: PageId, p: PageId, hub: nat, disk: map<PageId, Page>)
    returns (states: seq<System>, actions: seq<Action>)
    requires AllDifferent(a, b, c, d, p) && a in disk && b in disk && c in disk && d in disk && p in disk
    requires forall o :: o in disk ==> |disk[o]| == DISK_RECORD_SIZE
    ensures IsRun(states, actions, disk) && |states| == 12 && states[0].pool == EmptyPool(4, 1, hub)
    ensures actions == [PinLoading(1, a), Load(b), Load(c), Load(d), PinLoading(0, p), PeekLoading(0, p), ReadWord(0),
                        Load(b), Load(c), Load(d), ReadWord(0)]
    ensures IsIdle(states[5], 0) && PeekBegins(states[6], 0, p, 1) && Peeks(states[11], 0, p, 1)
    ensures states[11].threads[0].words == [Coordinate(disk, p, 0), Coordinate(disk, d, 1)]
  {
    hide IsStep;
    hide Coordinate;
    hide TornPool;
    var one, two := [Coordinate(disk, p, 0)], [Coordinate(disk, p, 0), Coordinate(disk, d, 1)];
    var idle, started := TornThreads(true, a, Idle), TornThreads(true, a, Peeking(p, 1, []));
    var first, second := TornThreads(true, a, Peeking(p, 1, one)), TornThreads(true, a, Peeking(p, 1, two));
    var pools := seq(10, i requires 0 <= i < 10 => TornPool(a, b, c, d, p, hub, disk, i));
    states := [
      System(pools[0], TornThreads(false, a, Idle)), System(pools[1], idle),
      System(pools[2], idle), System(pools[3], idle),
      System(pools[4], idle), System(pools[5], idle), System(pools[6], started), System(pools[6], first),
      System(pools[7], first), System(pools[8], first), System(pools[9], first), System(pools[9], second)
    ];
    actions := [PinLoading(1, a), Load(b), Load(c), Load(d), PinLoading(0, p), PeekLoading(0, p), ReadWord(0),
                Load(b), Load(c), Load(d), ReadWord(0)];
    TornFillSteps(a, b, c, d, p, hub, disk);
    TornReadSteps(a, b, c, d, p, hub, disk);
    TornStarts(a, b, c, d, p, hub, disk);
    TornGiven(a, b, c, d, p, hub, disk);
  }

  lemma TornFillSteps(a: PageId, b: PageId, c: PageId, d: PageId, p: PageId, hub: nat, disk: map<PageId, Page>)
    requires AllDifferent(a, b, c, d, p) && a in disk && b in disk && c in disk && d in disk && p in disk
    ensures var idle := TornThreads(true, a, Idle);
      && IsStep(System(TornPool(a, b, c, d, p, hub, disk, 0), TornThreads(false, a, Idle)), PinLoading(1, a),
                System(TornPool(a, b, c, d, p, hub, disk, 1), idle), disk)
      && IsStep(System(TornPool(a, b, c, d, p, hub, disk, 1), idle), Load(b),
                System(TornPool(a, b, c, d, p, hub, disk, 2), idle), disk)
      && IsStep(System(TornPool(a, b, c, d, p, hub, disk, 2), idle), Load(c),
                System(TornPool(a, b, c, d, p, hub, disk, 3), idle), disk)
      && IsStep(System(TornPool(a, b, c, d, p, hub, disk, 3), idle), Load(d),
                System(TornPool(a, b, c, d, p, hub, disk, 4), idle), disk)
      && IsStep(System(TornPool(a, b, c, d, p, hub, disk, 4), idle), PinLoading(0, p),
                System(TornPool(a, b, c, d, p, hub, disk, 5), idle), disk)
  {
    hide TornPool;
    hide IsStep;
    hide Mapped;
    hide LoadAndPin;
    hide LoadIfAbsent;
    TornLoads(a, b, c, d, p, hub, disk);
    var none, idle := TornThreads(false, a, Idle), TornThreads(true, a, Idle);
    assert none[1 := Reading(a, 0, [])] == idle;
    PinStep(TornPool(a, b, c, d, p, hub, disk, 0), TornPool(a, b, c, d, p, hub, disk, 1), none, 1, a, Some(0), disk);
    LoadStep(TornPool(a, b, c, d, p, hub, disk, 1), TornPool(a, b, c, d, p, hub, disk, 2), idle, b, disk);
    LoadStep(TornPool(a, b, c, d, p, hub, disk, 2), TornPool(a, b, c, d, p, hub, disk, 3), idle, c, disk);
    LoadStep(TornPool(a, b, c, d, p, hub, disk, 3), TornPool(a, b, c, d, p, hub, disk, 4), idle, d, disk);
    PinStep(TornPool(a, b, c, d, p, hub, disk, 4), TornPool(a, b, c, d, p, hub, disk, 5), idle, 0, p, None, disk);
  }

  lemma TornReadSteps(a: PageId, b: PageId, c: PageId, d: PageId, p: PageId, hub: nat, disk: map<PageId, Page>)
    requires AllDifferent(a, b, c, d, p) && a in disk && b in disk && c in disk && d in disk && p in disk
    requires forall o :: o in disk ==> |disk[o]| == DISK_RECORD_SIZE
    ensures var one, two := [Coordinate(disk, p, 0)], [Coordinate(disk, p, 0), Coordinate(disk, d, 1)];
      var idle, started := TornThreads(true, a, Idle), TornThreads(true, a, Peeking(p, 1, []));
      var first, second := TornThreads(true, a, Peeking(p, 1, one)), TornThreads(true, a, Peeking(p, 1, two));
      && IsStep(System(TornPool(a, b, c, d, p, hub, disk, 5), idle), PeekLoading(0, p),
                System(TornPool(a, b, c, d, p, hub, disk, 6), started), disk)
      && IsStep(System(TornPool(a, b, c, d, p, hub, disk, 6), started), ReadWord(0),
                System(TornPool(a, b, c, d, p, hub, disk, 6), first), disk)
      && IsStep(System(TornPool(a, b, c, d, p, hub, disk, 6), first), Load(b),
                System(TornPool(a, b, c, d, p, hub, disk, 7), first), disk)
      && IsStep(System(TornPool(a, b, c, d, p, hub, disk, 7), first), Load(c),
                System(TornPool(a, b, c, d, p, hub, disk, 8), first), disk)
      && IsStep(System(TornPool(a, b, c, d, p, hub, disk, 8), first), Load(d),
                System(TornPool(a, b, c, d, p, hub, disk, 9), first), disk)
      && IsStep(System(TornPool(a, b, c, d, p, hub, disk, 9), first), ReadWord(0),
                System(TornPool(a, b, c, d, p, hub, disk, 9), second), disk)
  {
    hide TornPool;
    hide IsStep;
    hide Mapped;
    hide LoadAndPin;
    hide LoadIfAbsent;
    hide Coordinate;
    TornLoads(a, b, c, d, p, hub, disk);
    TornFrames(a, b, c, d, p, hub, disk);
    var one, two := [Coordinate(disk, p, 0)], [Coordinate(disk, p, 0), Coordinate(disk, d, 1)];
    var idle, started := TornThreads(true, a, Idle), TornThreads(true, a, Peeking(p, 1, []));
    var first, second := TornThreads(true, a, Peeking(p, 1, one)), TornThreads(true, a, Peeking(p, 1, two));
    assert [] + one == one && one + [Coordinate(disk, d, 1)] == two;
    assert idle[0 := Peeking(p, 1, [])] == started;
    assert started[0 := Peeking(p, 1, one)] == first && first[0 := Peeking(p, 1, two)] == second;
    PeekStep(TornPool(a, b, c, d, p, hub, disk, 5), TornPool(a, b, c, d, p, hub, disk, 6), idle, 0, p, 1, disk);
    ReadStep(TornPool(a, b, c, d, p, hub, disk, 6), started, 0, p, disk);
    LoadStep(TornPool(a, b, c, d, p, hub, disk, 6), TornPool(a, b, c, d, p, hub, disk, 7), first, b, disk);
    LoadStep(TornPool(a, b, c, d, p, hub, disk, 7), TornPool(a, b, c, d, p, hub, disk, 8), first, c, disk);
    LoadStep(TornPool(a, b, c, d, p, hub, disk, 8), TornPool(a, b, c, d, p, hub, disk, 9), first, d, disk);
    ReadStep(TornPool(a, b, c, d, p, hub, disk, 9), first, 0, d, disk);
  }

  lemma TornStarts(a: PageId, b: PageId, c: PageId, d: PageId, p: PageId, hub: nat, disk: map<PageId, Page>)
    requires AllDifferent(a, b, c, d, p) && forall o :: o in disk ==> |disk[o]| == DISK_RECORD_SIZE
    ensures TornPool(a, b, c, d, p, hub, disk, 0) == EmptyPool(4, 1, hub)
    ensures Initial(System(TornPool(a, b, c, d, p, hub, disk, 0), TornThreads(false, a, Idle)), disk)
  {
    hide Consistent;
    SketchEmpty(4, 1, hub, disk);
    TornAgrees(a, b, c, d, p, hub, 0);
    SketchConsistent(TornSketch(a, b, c, d, p, hub, 0), disk);
  }

  lemma TornGiven(a: PageId, b: PageId, c: PageId, d: PageId, p: PageId, hub: nat, disk: map<PageId, Page>)
    requires AllDifferent(a, b, c, d, p)
    ensures p in TornPool(a, b, c, d, p, hub, disk, 6).table && TornPool(a, b, c, d, p, hub, disk, 6).table[p] == 1
  {
    hide TableOf;
    var pages := [a, p, c, d];
    TableAt(pages);
    assert pages[1] == p;
  }
}
