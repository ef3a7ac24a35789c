/** Any number of threads sharing one pool. */
module PinProtocol {
  // Each thread pins a page, reads its coordinates one at a time and unpins it, or reads them without
  // pinning, as the fallback of a full pool does; others look pages up, load them and update in-degrees.

  import opened Sequences
  import opened Options
  import opened Bytes
  import opened Vectors
  import opened DiskRecords
  import opened EvictionPolicy
  import opened BufferPool
  import opened PoolSteps
  import opened PoolSketches
  import opened DiskReaders

  datatype Thread =
    | Idle
    | Reading(page: PageId, frame: nat, words: seq<Word>)
    | Peeking(page: PageId, frame: nat, words: seq<Word>)

  datatype System = System(pool: Pool, threads: map<nat, Thread>)

  datatype Action =
    | PinCached(thread: nat, page: PageId)
    | PinLoading(thread: nat, page: PageId)
    | PeekCached(thread: nat, page: PageId)
    | PeekLoading(thread: nat, page: PageId)
    | ReadWord(thread: nat)
    | Unpin(thread: nat)
    | Finish(thread: nat)
    | Look(page: PageId)
    | Load(page: PageId)
    | SetDegree(page: PageId, degree: nat)

  predicate IsIdle(s: System, t: nat) {
    t in s.threads && s.threads[t].Idle?
  }

  predicate IsReading(s: System, t: nat) {
    t in s.threads && s.threads[t].Reading?
  }

  predicate IsPeeking(s: System, t: nat) {
    t in s.threads && s.threads[t].Peeking?
  }

  /** A thread starts only when idle, reads while it has a page and stops at the end of the
      vector; only pages that exist on disk are loaded. */
  predicate Enabled(s: System, a: Action, disk: map<PageId, Page>) {
    match a
    case PinCached(t, p) => IsIdle(s, t)
    case PinLoading(t, p) => IsIdle(s, t) && p in disk
    case PeekCached(t, p) => IsIdle(s, t)
    case PeekLoading(t, p) => IsIdle(s, t) && p in disk
    case ReadWord(t) => (IsReading(s, t) || IsPeeking(s, t)) && |s.threads[t].words| < DEFAULT_DIMENSION
    case Unpin(t) => IsReading(s, t)
    case Finish(t) => IsPeeking(s, t)
    case Look(p) => true
    case Load(p) => p in disk
    case SetDegree(p, d) => true
  }

  function Acquired(s: System, t: nat, p: PageId, pool: Pool, frame: Option<nat>): System {
    if frame.None? then s.(pool := pool)
    else System(pool, s.threads[t := Reading(p, frame.value, [])])
  }

  function Peeked(s: System, t: nat, p: PageId, pool: Pool, frame: Option<nat>): System {
    if frame.None? then s.(pool := pool)
    else System(pool, s.threads[t := Peeking(p, frame.value, [])])
  }

  /** The next coordinate, read from the frame the thread was given. */
  function NextWord(pool: Pool, frame: nat, at: nat): Word {
    if frame < |pool.frames| && |pool.frames[frame].data| == DISK_RECORD_SIZE && at < DEFAULT_DIMENSION
    then WordAt(pool.frames[frame].data, DISK_VECTOR_OFFSET + 4 * at)
    else 0
  }

  function Next(s: System, a: Action, disk: map<PageId, Page>): System
    requires Mapped(s.pool) && Enabled(s, a, disk)
  {
    match a
    case PinCached(t, p) =>
      var (pool, frame) := GetAndPin(s.pool, p);
      Acquired(s, t, p, pool, frame)
    case PinLoading(t, p) =>
      var (pool, frame) := LoadAndPin(s.pool, p, disk[p]);
      Acquired(s, t, p, pool, frame)
    case PeekCached(t, p) =>
      var (pool, frame) := GetPage(s.pool, p);
      Peeked(s, t, p, pool, frame)
    case PeekLoading(t, p) =>
      var (pool, frame) := LoadIfAbsent(s.pool, p, disk[p]);
      Peeked(s, t, p, pool, frame)
    case ReadWord(t) =>
      var r := s.threads[t];
      s.(threads := s.threads[t := r.(words := r.words + [NextWord(s.pool, r.frame, |r.words|)])])
    case Unpin(t) =>
      System(UnpinPage(s.pool, s.threads[t].page).0, s.threads[t := Idle])
    case Finish(t) => s.(threads := s.threads[t := Idle])
    case Look(p) => s.(pool := GetPage(s.pool, p).0)
    case Load(p) => s.(pool := LoadIfAbsent(s.pool, p, disk[p]).0)
    case SetDegree(p, d) => s.(pool := SetInDegree(s.pool, p, d))
  }

  /** The threads that hold a page. */
  function Holders(threads: map<nat, Thread>, p: PageId): set<nat> {
    set t | t in threads && threads[t].Reading? && threads[t].page == p
  }

  /** A thread's page stays in its frame, and what it has read so far is the disk's vector. */
  ghost predicate ReadsDisk(s: System, t: nat, disk: map<PageId, Page>) {
    IsReading(s, t) ==>
      var r := s.threads[t];
      && r.page in disk && |disk[r.page]| == DISK_RECORD_SIZE
      && PinnedAt(s.pool, r.page, r.frame)
      && |r.words| <= DEFAULT_DIMENSION
      && r.words == WordsAt(disk[r.page], DISK_VECTOR_OFFSET, |r.words|)
  }

  ghost predicate PinsCounted(s: System) {
    forall p :: PinsOf(s.pool, p) == |Holders(s.threads, p)|
  }

  ghost predicate Safe(s: System, disk: map<PageId, Page>) {
    && Consistent(s.pool) && Faithful(s.pool, disk)
    && (forall p :: p in disk ==> |disk[p]| == DISK_RECORD_SIZE)
    && PinsCounted(s)
    && forall t :: ReadsDisk(s, t, disk)
  }

  // ---------------------------------------------------------------------------------------
  // One step
  // ---------------------------------------------------------------------------------------

  lemma HolderCounts(threads: map<nat, Thread>, t: nat, r: Thread, p: PageId)
    requires t in threads
    ensures |Holders(threads[t := r], p)| ==
      |Holders(threads, p)| - (if t in Holders(threads, p) then 1 else 0)
      + (if r.Reading? && r.page == p then 1 else 0)
  {
    var rest := Holders(threads, p) - {t};
    assert Holders(threads[t := r], p) == if r.Reading? && r.page == p then rest + {t} else rest;
  }

  lemma AcquiredSafe(s: System, t: nat, p: PageId, pool: Pool, frame: Option<nat>, disk: map<PageId, Page>)
    requires Safe(s, disk) && IsIdle(s, t)
    requires Consistent(pool) && Faithful(pool, disk) && KeepsPinned(s.pool, pool)
    requires forall o :: PinsOf(pool, o) == PinsOf(s.pool, o) + if o == p && frame.Some? then 1 else 0
    requires frame.Some? ==> p in pool.table && pool.table[p] == frame.value
    ensures Safe(Acquired(s, t, p, pool, frame), disk)
  {
    var next := Acquired(s, t, p, pool, frame);
    forall o ensures PinsOf(pool, o) == |Holders(next.threads, o)| {
      if frame.Some? { HolderCounts(s.threads, t, next.threads[t], o); }
    }
    forall u ensures ReadsDisk(next, u, disk) {
      assert ReadsDisk(s, u, disk);
      if u == t && frame.Some? {
        assert PinsOf(pool, p) > 0;
      }
    }
  }

  lemma UnpinSafe(s: System, t: nat, disk: map<PageId, Page>)
    requires Safe(s, disk) && IsReading(s, t)
    ensures Safe(Next(s, Unpin(t), disk), disk)
  {
    var p := s.threads[t].page;
    var next := Next(s, Unpin(t), disk);
    assert ReadsDisk(s, t, disk);
    assert t in Holders(s.threads, p);
    SetPinsKeeps(s.pool, p, PinsOf(s.pool, p) - 1, disk);
    forall o ensures PinsOf(next.pool, o) == |Holders(next.threads, o)| {
      HolderCounts(s.threads, t, Idle, o);
    }
    forall u ensures ReadsDisk(next, u, disk) {
      assert ReadsDisk(s, u, disk);
      if u != t && IsReading(s, u) && s.threads[u].page == p {
        assert u in Holders(next.threads, p);
        assert |Holders(next.threads, p)| > 0;
      }
    }
  }

  lemma ReadWordSafe(s: System, t: nat, disk: map<PageId, Page>)
    requires Safe(s, disk) && Enabled(s, ReadWord(t), disk) && IsReading(s, t)
    ensures Safe(Next(s, ReadWord(t), disk), disk)
  {
    var next := Next(s, ReadWord(t), disk);
    forall o ensures PinsOf(next.pool, o) == |Holders(next.threads, o)| {
      HolderCounts(s.threads, t, next.threads[t], o);
    }
    forall u ensures ReadsDisk(next, u, disk) {
      assert ReadsDisk(s, u, disk);
    }
  }

  /** The threads that hold a page are the same, and have read the same. */
  ghost predicate SameReaders(s: System, next: System) {
    forall u :: IsReading(s, u) || IsReading(next, u) ==>
      IsReading(s, u) && IsReading(next, u) && next.threads[u] == s.threads[u]
  }

  /** A step that keeps every pin and concerns no thread that holds a page is safe. */
  lemma OthersSafe(s: System, next: System, disk: map<PageId, Page>)
    requires Safe(s, disk)
    requires Consistent(next.pool) && Faithful(next.pool, disk) && KeepsPinned(s.pool, next.pool)
    requires forall o :: PinsOf(next.pool, o) == PinsOf(s.pool, o)
    requires SameReaders(s, next)
    ensures Safe(next, disk)
  {
    forall o ensures PinsOf(next.pool, o) == |Holders(next.threads, o)| {
      assert forall u :: u in Holders(next.threads, o) ==> IsReading(next, u);
      assert forall u :: u in Holders(s.threads, o) ==> IsReading(s, u);
      assert Holders(next.threads, o) == Holders(s.threads, o);
    }
    forall u ensures ReadsDisk(next, u, disk) {
      assert ReadsDisk(s, u, disk);
    }
  }

  /** Looking a page up, or loading it without a pin, is safe. */
  lemma LookSafe(s: System, p: PageId, load: bool, next: System, disk: map<PageId, Page>)
    requires Safe(s, disk) && (load ==> p in disk)
    requires next.pool == if load then LoadIfAbsent(s.pool, p, disk[p]).0 else GetPage(s.pool, p).0
    requires SameReaders(s, next)
    ensures Safe(next, disk)
  {
    if load && p !in s.pool.table {
      LoadKeeps(s.pool, p, false, disk);
    } else if !load && p in s.pool.table {
      TouchKeeps(s.pool, p, disk);
    }
    OthersSafe(s, next, disk);
  }

  lemma SetInDegreeKeeps(s: Pool, p: PageId, degree: nat, disk: map<PageId, Page>)
    requires Consistent(s) && Faithful(s, disk)
    ensures var t := SetInDegree(s, p, degree);
      Consistent(t) && Faithful(t, disk) && KeepsPinned(s, t) && forall o :: PinsOf(t, o) == PinsOf(s, o)
  {
  }

  lemma PinSafe(s: System, t: nat, p: PageId, load: bool, disk: map<PageId, Page>)
    requires Safe(s, disk) && IsIdle(s, t) && (load ==> p in disk)
    ensures Safe(Next(s, if load then PinLoading(t, p) else PinCached(t, p), disk), disk)
  {
    hide ReadsDisk;
    hide Holders;
    hide QueuesAgree;
    hide PinsAgree;
    if p in s.pool.table {
      TouchKeeps(s.pool, p, disk);
      SetPinsKeeps(Touch(s.pool, p), p, PinsOf(s.pool, p) + 1, disk);
      var (pool, frame) := GetAndPin(s.pool, p);
      AcquiredSafe(s, t, p, pool, frame, disk);
    } else if load {
      LoadKeeps(s.pool, p, true, disk);
      var (pool, frame) := LoadAndPin(s.pool, p, disk[p]);
      AcquiredSafe(s, t, p, pool, frame, disk);
    }
  }

  lemma StepSafe(s: System, a: Action, disk: map<PageId, Page>)
    requires Safe(s, disk) && Enabled(s, a, disk)
    ensures Safe(Next(s, a, disk), disk)
  {
    var next := Next(s, a, disk);
    match a
    case PinCached(t, p) => PinSafe(s, t, p, false, disk);
    case PinLoading(t, p) => PinSafe(s, t, p, true, disk);
    case PeekCached(t, p) => LookSafe(s, p, false, next, disk);
    case PeekLoading(t, p) => LookSafe(s, p, true, next, disk);
    case ReadWord(t) => if IsReading(s, t) { ReadWordSafe(s, t, disk); } else { OthersSafe(s, next, disk); }
    case Unpin(t) => UnpinSafe(s, t, disk);
    case Finish(t) => OthersSafe(s, next, disk);
    case Look(p) => LookSafe(s, p, false, next, disk);
    case Load(p) => LookSafe(s, p, true, next, disk);
    case SetDegree(p, d) =>
      SetInDegreeKeeps(s.pool, p, d, disk);
      OthersSafe(s, next, disk);
  }

  // ---------------------------------------------------------------------------------------
  // Whole runs
  // ---------------------------------------------------------------------------------------

  /** All threads start idle on a pool without pins. */
  ghost predicate Initial(s: System, disk: map<PageId, Page>) {
    && Consistent(s.pool) && Faithful(s.pool, disk)
    && (forall p :: p in disk ==> |disk[p]| == DISK_RECORD_SIZE)
    && (forall p :: PinsOf(s.pool, p) == 0)
    && forall t :: t in s.threads ==> s.threads[t].Idle?
  }

  ghost predicate IsStep(s: System, a: Action, next: System, disk: map<PageId, Page>) {
    Mapped(s.pool) && Enabled(s, a, disk) && next == Next(s, a, disk)
  }

  ghost predicate IsRun(states: seq<System>, actions: seq<Action>, disk: map<PageId, Page>) {
    && |states| == |actions| + 1
    && Initial(states[0], disk)
    && forall i :: 0 <= i < |actions| ==> IsStep(states[i], actions[i], states[i + 1], disk)
  }

  lemma {:induction false} RunSafe(states: seq<System>, actions: seq<Action>, disk: map<PageId, Page>, i: nat)
    requires IsRun(states, actions, disk) && i < |states|
    ensures Safe(states[i], disk)
  {
    if i == 0 {
      forall p ensures |Holders(states[0].threads, p)| == 0 {
        assert Holders(states[0].threads, p) == {};
      }
      forall t ensures ReadsDisk(states[0], t, disk) {
      }
    } else {
      RunSafe(states, actions, disk, i - 1);
      assert IsStep(states[i - 1], actions[i - 1], states[i], disk);
      StepSafe(states[i - 1], actions[i - 1], disk);
    }
  }

  /** A holder's page is resident and pinned in the holder's frame, with its disk bytes. */
  ghost predicate HoldsDiskPage(s: System, t: nat, disk: map<PageId, Page>) {
    IsReading(s, t) ==>
      var r := s.threads[t];
      r.page in disk && PinnedAt(s.pool, r.page, r.frame) && s.pool.frames[r.frame].data == disk[r.page]
  }

  /** A thread that has read a whole vector computes the distance of the disk record. */
  ghost predicate SeesDiskDistance(s: System, t: nat, query: Vector, disk: map<PageId, Page>) {
    IsReading(s, t) && |query| <= DEFAULT_DIMENSION == |s.threads[t].words| ==>
      var r := s.threads[t];
      && r.page in disk && |disk[r.page]| == DISK_RECORD_SIZE
      && L2(query, FloatValues(r.words), |query|) == L2(query, DiskVector(disk, r.page), |query|)
  }

  /** In every interleaving and at every moment: pin counts equal the number of holding threads,
      a held page is where its holder was told with its disk bytes, and the distance a thread
      computes from what it read is that of the disk record. */
  lemma PinsProtectReads(states: seq<System>, actions: seq<Action>, disk: map<PageId, Page>, i: nat)
    requires IsRun(states, actions, disk) && i < |states|
    ensures forall p :: PinsOf(states[i].pool, p) == |Holders(states[i].threads, p)|
    ensures forall t :: HoldsDiskPage(states[i], t, disk)
    ensures forall t, query :: SeesDiskDistance(states[i], t, query, disk)
  {
    RunSafe(states, actions, disk, i);
    forall t ensures HoldsDiskPage(states[i], t, disk) {
      assert ReadsDisk(states[i], t, disk);
    }
    forall t, query ensures SeesDiskDistance(states[i], t, query, disk) {
      assert ReadsDisk(states[i], t, disk);
    }
  }

  /** A thread is given a page with a pin exactly when it is resident, or can be loaded: when a frame is free or the
      page the policy gives up is not pinned. It has read nothing then, and no other thread is concerned. */
  lemma PinsExactly(s: System, t: nat, p: PageId, load: bool, disk: map<PageId, Page>)
    requires Safe(s, disk) && IsIdle(s, t) && (load ==> p in disk)
    ensures var next := Next(s, if load then PinLoading(t, p) else PinCached(t, p), disk);
      && (IsReading(next, t) <==> p in s.pool.table || (load && (s.pool.free != [] || CanEvict(s.pool))))
      && (IsReading(next, t) ==> p in next.pool.table && next.threads[t] == Reading(p, next.pool.table[p], []))
      && (!IsReading(next, t) ==> IsIdle(next, t))
      && next.threads.Keys == s.threads.Keys
      && forall u :: u in s.threads && u != t ==> next.threads[u] == s.threads[u]
  {
    hide LoadAndPin;
    hide GetAndPin;
    hide ReadsDisk;
    hide CanEvict;
    hide OnlyPins;
    hide Vacated;
    if p in s.pool.table {
      LookupExactly(s.pool, p);
      LoadResidentExactly(s.pool, p, if load then disk[p] else []);
      GetAndPinKeepsTable(s.pool, p);
    } else if load {
      LoadExactly(s.pool, p, disk[p], true);
    } else {
      LookupExactly(s.pool, p);
    }
  }

  lemma GetAndPinKeepsTable(s: Pool, p: PageId)
    requires Mapped(s)
    ensures GetAndPin(s, p).0.table == s.table
  {
  }

  /** A pinned read takes the next coordinate of the page on disk. */
  lemma ReadsNextCoordinate(s: System, t: nat, disk: map<PageId, Page>)
    requires Safe(s, disk) && IsReading(s, t) && |s.threads[t].words| < DEFAULT_DIMENSION
    ensures var r, next := s.threads[t], Next(s, ReadWord(t), disk);
      && r.page in disk && |disk[r.page]| == DISK_RECORD_SIZE && next.pool == s.pool
      && next.threads == s.threads[t := Reading(r.page, r.frame,
           r.words + [WordAt(disk[r.page], DISK_VECTOR_OFFSET + 4 * |r.words|)])]
  {
    assert ReadsDisk(s, t, disk);
  }

  /** An unpin gives back exactly the thread's own pin. */
  lemma UnpinsExactly(s: System, t: nat, disk: map<PageId, Page>)
    requires Safe(s, disk) && IsReading(s, t)
    ensures var p, next := s.threads[t].page, Next(s, Unpin(t), disk);
      && next.threads == s.threads[t := Idle] && next.pool.queues == s.pool.queues
      && PinsOf(s.pool, p) > 0 && p in s.pool.table && OnlyPins(s.pool, next.pool, p, PinsOf(s.pool, p) - 1)
  {
    assert ReadsDisk(s, t, disk);
    assert t in Holders(s.threads, s.threads[t].page);
  }

  predicate Holds(s: System, t: nat, p: PageId, f: nat) {
    IsReading(s, t) && s.threads[t].page == p && s.threads[t].frame == f
  }

  lemma StepKeepsHold(s: System, a: Action, disk: map<PageId, Page>, t: nat, p: PageId, f: nat)
    requires Mapped(s.pool) && Enabled(s, a, disk) && Holds(s, t, p, f) && IsReading(Next(s, a, disk), t)
    ensures Holds(Next(s, a, disk), t, p, f)
  {
  }

  /** Between a thread's pin and its unpin the page keeps its frame, whatever the others do. */
  lemma {:induction false} HeldPageStays(states: seq<System>, actions: seq<Action>, disk: map<PageId, Page>,
                                         t: nat, p: PageId, f: nat, i: nat, j: nat)
    requires IsRun(states, actions, disk) && i <= j < |states|
    requires Holds(states[i], t, p, f)
    requires forall k :: i <= k <= j ==> IsReading(states[k], t)
    ensures Holds(states[j], t, p, f) && PinnedAt(states[j].pool, p, f)
  {
    if i < j {
      var k := j - 1;
      HeldPageStays(states, actions, disk, t, p, f, i, k);
      assert IsStep(states[k], actions[k], states[k + 1], disk);
      StepKeepsHold(states[k], actions[k], disk, t, p, f);
    }
    RunSafe(states, actions, disk, j);
    assert ReadsDisk(states[j], t, disk);
  }

  // ---------------------------------------------------------------------------------------
  // The cost of refused evictions
  // ---------------------------------------------------------------------------------------

  lemma LoadKeepsRefused(s: Pool, p: PageId, pin: bool, disk: map<PageId, Page>)
    requires Consistent(s) && Faithful(s, disk) && p in disk
    ensures s.refused <= (if pin then LoadAndPin(s, p, disk[p]) else LoadIfAbsent(s, p, disk[p])).0.refused
  {
    hide TakeFrame;
    hide Consistent;
    hide Faithful;
    if p !in s.table { LoadKeeps(s, p, pin, disk); }
  }

  lemma StepKeepsRefused(s: System, a: Action, disk: map<PageId, Page>)
    requires Safe(s, disk) && Enabled(s, a, disk)
    ensures s.pool.refused <= Next(s, a, disk).pool.refused
  {
    hide LoadAndPin;
    hide LoadIfAbsent;
    hide Consistent;
    hide ReadsDisk;
    match a
    case PinLoading(t, p) => LoadKeepsRefused(s.pool, p, true, disk);
    case PeekLoading(t, p) => LoadKeepsRefused(s.pool, p, false, disk);
    case Load(p) => LoadKeepsRefused(s.pool, p, false, disk);
    case _ =>
  }

  lemma {:induction false} RefusedGrow(states: seq<System>, actions: seq<Action>, disk: map<PageId, Page>, i: nat,
                                       j: nat)
    requires IsRun(states, actions, disk) && i <= j < |states|
    ensures states[i].pool.refused <= states[j].pool.refused
  {
    if i < j {
      var k := j - 1;
      RefusedGrow(states, actions, disk, i, k);
      RunSafe(states, actions, disk, k);
      assert IsStep(states[k], actions[k], states[k + 1], disk);
      StepKeepsRefused(states[k], actions[k], disk);
    }
  }

  lemma RefusedAreResident(s: Pool)
    requires Consistent(s)
    ensures forall p :: p in s.refused ==> p in s.table
  {
    assert forall p :: p in s.refused ==> p in s.table.Keys;
  }

  /** A page whose eviction was refused never leaves the pool again: it is in no queue, so it is
      never picked. */
  lemma RefusedStayResident(states: seq<System>, actions: seq<Action>, disk: map<PageId, Page>, i: nat, j: nat)
    requires IsRun(states, actions, disk) && i <= j < |states|
    ensures forall p :: p in states[i].pool.refused ==> p in states[j].pool.table
  {
    RefusedGrow(states, actions, disk, i, j);
    RunSafe(states, actions, disk, j);
    RefusedAreResident(states[j].pool);
  }

  /** Once every frame holds such a page, no other page can be loaded. */
  lemma RefusedPagesFillThePool(s: Pool, p: PageId, data: Page)
    requires Consistent(s) && s.free == [] && s.refused == s.table.Keys && p !in s.table
    ensures LoadIfAbsent(s, p, data) == (s, None) && LoadAndPin(s, p, data) == (s, None)
  {
    assert Queued(s.queues) == {};
    PickVictimKeeps(s.queues);
  }

  /** Every frame holds a page whose eviction was refused. */
  predicate Jammed(s: Pool) {
    s.free == [] && s.refused == s.table.Keys
  }

  lemma StepStaysJammed(s: System, a: Action, disk: map<PageId, Page>)
    requires Safe(s, disk) && Enabled(s, a, disk) && Jammed(s.pool)
    ensures Jammed(Next(s, a, disk).pool) && Next(s, a, disk).pool.table == s.pool.table
  {
    match a
    case PinLoading(t, p) => if p !in s.pool.table { RefusedPagesFillThePool(s.pool, p, disk[p]); }
    case PeekLoading(t, p) => if p !in s.pool.table { RefusedPagesFillThePool(s.pool, p, disk[p]); }
    case Load(p) => if p !in s.pool.table { RefusedPagesFillThePool(s.pool, p, disk[p]); }
    case _ =>
  }

  /** From then on the pool holds the same pages for ever, pinned or not. */
  lemma {:induction false} JammedForever(states: seq<System>, actions: seq<Action>, disk: map<PageId, Page>, i: nat,
                                         j: nat)
    requires IsRun(states, actions, disk) && i <= j < |states| && Jammed(states[i].pool)
    ensures Jammed(states[j].pool) && states[j].pool.table == states[i].pool.table
  {
    if i < j {
      var k := j - 1;
      JammedForever(states, actions, disk, i, k);
      RunSafe(states, actions, disk, k);
      assert IsStep(states[k], actions[k], states[k + 1], disk);
      StepStaysJammed(states[k], actions[k], disk);
    }
  }

  // ---------------------------------------------------------------------------------------
  // A run that jams any pool
  // ---------------------------------------------------------------------------------------

  /** As many threads as there are frames pin a page each, then as many loads of another page are refused, then
      the threads unpin. What the pool is after i of these steps. */
  function JamSketch(pages: seq<PageId>, hotMax: nat, hub: nat, i: nat): Sketch
    requires i <= 3 * |pages|
  {
    var n := |pages|;
    if i <= n then
      Sketch(n, pages[..i], PagesOf(pages[..i]), pages[..i], {}, hotMax, hub)
    else if i <= 2 * n then
      Sketch(n, pages, PagesOf(pages), pages[i - n..], PagesOf(pages[..i - n]), hotMax, hub)
    else
      Sketch(n, pages, PagesOf(pages[i - 2 * n..]), [], PagesOf(pages), hotMax, hub)
  }

  function JamThread(pages: seq<PageId>, i: nat, t: nat): Thread
    requires t < |pages|
  {
    if t < i && i <= 2 * |pages| + t then Reading(pages[t], t, []) else Idle
  }

  function JamThreads(pages: seq<PageId>, i: nat): map<nat, Thread> {
    map t: nat | 0 <= t < |pages| :: JamThread(pages, i, t)
  }

  function JamAction(pages: seq<PageId>, q: PageId, i: nat): Action
    requires i < 3 * |pages|
  {
    if i < |pages| then PinLoading(i, pages[i])
    else if i < 2 * |pages| then Load(q)
    else Unpin(i - 2 * |pages|)
  }

  lemma JamAgrees(pages: seq<PageId>, hotMax: nat, hub: nat, i: nat)
    requires NoRepeats(pages) && i <= 3 * |pages|
    ensures Agree(JamSketch(pages, hotMax, hub, i))
  {
    var n := |pages|;
    if n < i <= 2 * n {
      var j := i - n;
      assert pages == pages[..j] + pages[j..];
      forall p | p in pages[j..] ensures p !in pages[..j] {
        var a :| 0 <= a < |pages[j..]| && pages[j..][a] == p;
        assert pages[j + a] == p;
      }
    }
  }

  ghost function JamState(pages: seq<PageId>, hotMax: nat, hub: nat, disk: map<PageId, Page>, i: nat): System
    requires NoRepeats(pages) && i <= 3 * |pages|
  {
    JamAgrees(pages, hotMax, hub, i);
    System(PoolOf(JamSketch(pages, hotMax, hub, i), disk), JamThreads(pages, i))
  }

  predicate AllOnDisk(pages: seq<PageId>, q: PageId, disk: map<PageId, Page>) {
    q in disk && q !in pages && forall p :: p in pages ==> p in disk
  }

  lemma JamPin(pages: seq<PageId>, q: PageId, hotMax: nat, hub: nat, disk: map<PageId, Page>, i: nat)
    requires NoRepeats(pages) && AllOnDisk(pages, q, disk) && i < |pages|
    ensures IsStep(JamState(pages, hotMax, hub, disk, i), PinLoading(i, pages[i]),
                   JamState(pages, hotMax, hub, disk, i + 1), disk)
  {
    hide PoolOf;
    hide LoadAndPin;
    hide Mapped;
    var k, p := JamSketch(pages, hotMax, hub, i), pages[i];
    assert pages[..i + 1] == pages[..i] + [p];
    JamAgrees(pages, hotMax, hub, i);
    assert p !in pages[..i];
    LoadsFree(k, p, true, disk);
    assert Loaded(k, p, true) == JamSketch(pages, hotMax, hub, i + 1);
    assert JamThreads(pages, i)[i := Reading(p, i, [])] == JamThreads(pages, i + 1);
  }

  lemma JamRefusal(pages: seq<PageId>, q: PageId, hotMax: nat, hub: nat, disk: map<PageId, Page>, i: nat)
    requires NoRepeats(pages) && AllOnDisk(pages, q, disk) && hotMax >= 1 && |pages| <= i < 2 * |pages|
    ensures IsStep(JamState(pages, hotMax, hub, disk, i), Load(q), JamState(pages, hotMax, hub, disk, i + 1), disk)
  {
    hide PoolOf;
    hide LoadIfAbsent;
    hide LoadAndPin;
    hide Mapped;
    var n, j := |pages|, i - |pages|;
    var k := JamSketch(pages, hotMax, hub, i);
    assert pages[..n] == pages && pages[0..] == pages && pages[..0] == [];
    assert k.pages == pages && k.warm == pages[j..];
    JamAgrees(pages, hotMax, hub, i);
    assert k.warm[0] == pages[j] && k.warm[1..] == pages[j + 1..];
    assert pages[..j + 1] == pages[..j] + [pages[j]];
    LoadsRefused(k, q, false, disk);
    assert Refusing(k) == JamSketch(pages, hotMax, hub, i + 1);
    assert JamThreads(pages, i) == JamThreads(pages, i + 1);
  }

  lemma JamUnpinSketch(pages: seq<PageId>, hotMax: nat, hub: nat, i: nat)
    requires NoRepeats(pages) && 2 * |pages| <= i < 3 * |pages|
    ensures var k, p := JamSketch(pages, hotMax, hub, i), pages[i - 2 * |pages|];
      p in k.held && k.(held := k.held - {p}) == JamSketch(pages, hotMax, hub, i + 1)
  {
    var n, j := |pages|, i - 2 * |pages|;
    var p := pages[j];
    assert pages[n..] == [] && pages[..n] == pages && pages[0..] == pages;
    assert pages[j..] == [p] + pages[j + 1..];
    assert p !in pages[j + 1..];
    assert PagesOf(pages[j..]) - {p} == PagesOf(pages[j + 1..]);
  }

  lemma JamUnpin(pages: seq<PageId>, q: PageId, hotMax: nat, hub: nat, disk: map<PageId, Page>, i: nat)
    requires NoRepeats(pages) && AllOnDisk(pages, q, disk) && 2 * |pages| <= i < 3 * |pages|
    ensures IsStep(JamState(pages, hotMax, hub, disk, i), Unpin(i - 2 * |pages|),
                   JamState(pages, hotMax, hub, disk, i + 1), disk)
  {
    hide PoolOf;
    hide UnpinPage;
    hide Mapped;
    hide JamSketch;
    hide Agree;
    var j := i - 2 * |pages|;
    var k, p := JamSketch(pages, hotMax, hub, i), pages[j];
    JamAgrees(pages, hotMax, hub, i);
    JamAgrees(pages, hotMax, hub, i + 1);
    JamUnpinSketch(pages, hotMax, hub, i);
    Unpins(k, p, disk);
    assert JamThreads(pages, i)[j := Idle] == JamThreads(pages, i + 1);
  }

  lemma JamStarts(pages: seq<PageId>, hotMax: nat, hub: nat, disk: map<PageId, Page>)
    requires NoRepeats(pages) && forall o :: o in disk ==> |disk[o]| == DISK_RECORD_SIZE
    ensures Initial(JamState(pages, hotMax, hub, disk, 0), disk)
    ensures JamState(pages, hotMax, hub, disk, 0).pool == EmptyPool(|pages|, hotMax, hub)
  {
    assert pages[..0] == [];
    SketchConsistent(JamSketch(pages, hotMax, hub, 0), disk);
    SketchEmpty(|pages|, hotMax, hub, disk);
  }

  lemma JamSketchEnds(pages: seq<PageId>, hotMax: nat, hub: nat)
    ensures JamSketch(pages, hotMax, hub, 3 * |pages|)
         == Sketch(|pages|, pages, {}, [], PagesOf(pages), hotMax, hub)
  {
    assert pages[|pages|..] == [] && pages[..0] == [];
  }

  lemma AllRefusedIsJammed(k: Sketch, disk: map<PageId, Page>)
    requires Drawn(k) && |k.pages| == k.size && k.refused == PagesOf(k.pages)
    ensures Jammed(PoolOf(k, disk)) && forall o :: o in PoolOf(k, disk).table <==> o in k.pages
  {
    hide TableOf;
    hide NoDegrees;
    TableAt(k.pages);
    assert TableOf(k.pages).Keys == k.refused;
  }

  lemma JammedLoadsNothing(s: Pool, o: PageId, data: Page)
    requires Consistent(s) && Jammed(s) && o !in s.table
    ensures LoadIfAbsent(s, o, data).1.None?
  {
    hide LoadIfAbsent;
    hide LoadAndPin;
    RefusedPagesFillThePool(s, o, data);
  }

  lemma JamEnds(pages: seq<PageId>, hotMax: nat, hub: nat, disk: map<PageId, Page>)
    requires NoRepeats(pages) && pages != []
    ensures var end := JamState(pages, hotMax, hub, disk, 3 * |pages|);
      && Consistent(end.pool) && Jammed(end.pool) && (forall p :: PinsOf(end.pool, p) == 0)
      && (forall t :: t in end.threads ==> end.threads[t].Idle?)
      && forall o, data :: o !in pages ==> LoadIfAbsent(end.pool, o, data).1.None?
  {
    hide LoadIfAbsent;
    hide PoolOf;
    hide Consistent;
    hide Agree;
    hide Jammed;
    hide PinsOf;
    hide JamSketch;
    var k := JamSketch(pages, hotMax, hub, 3 * |pages|);
    JamSketchEnds(pages, hotMax, hub);
    JamAgrees(pages, hotMax, hub, 3 * |pages|);
    SketchMapped(k, disk);
    SketchConsistent(k, disk);
    AllRefusedIsJammed(k, disk);
    forall o, data | o !in pages ensures LoadIfAbsent(PoolOf(k, disk), o, data).1.None? {
      JammedLoadsNothing(PoolOf(k, disk), o, data);
    }
  }

  /** A run that jams a pool, whatever its size: from an empty pool to one without a pin, with all threads
      idle, in which no page but those it holds can ever be loaded. */
  lemma JamCounterexample(pages: seq<PageId>, q: PageId, hotMax: nat, hub: nat, disk: map<PageId, Page>)
    returns (states: seq<System>, actions: seq<Action>)
    requires NoRepeats(pages) && pages != [] && AllOnDisk(pages, q, disk) && hotMax >= 1
    requires forall o :: o in disk ==> |disk[o]| == DISK_RECORD_SIZE
    ensures IsRun(states, actions, disk) && |states| == 3 * |pages| + 1
    ensures states[0].pool == EmptyPool(|pages|, hotMax, hub)
    ensures var end := states[|states| - 1];
      && Consistent(end.pool) && Jammed(end.pool) && (forall p :: PinsOf(end.pool, p) == 0)
      && (forall t :: t in end.threads ==> end.threads[t].Idle?)
      && forall o, data :: o !in pages ==> LoadIfAbsent(end.pool, o, data).1.None?
  {
    hide IsStep;
    hide JamState;
    hide Consistent;
    hide Mapped;
    var n := |pages|;
    states := seq(3 * n + 1, i requires 0 <= i < 3 * n + 1 => JamState(pages, hotMax, hub, disk, i));
    actions := seq(3 * n, i requires 0 <= i < 3 * n => JamAction(pages, q, i));
    JamStarts(pages, hotMax, hub, disk);
    forall i | 0 <= i < 3 * n ensures IsStep(states[i], actions[i], states[i + 1], disk) {
      if i < n { JamPin(pages, q, hotMax, hub, disk, i); }
      else if i < 2 * n { JamRefusal(pages, q, hotMax, hub, disk, i); }
      else { JamUnpin(pages, q, hotMax, hub, disk, i); }
    }
    JamEnds(pages, hotMax, hub, disk);
  }
}
