/** The buffer pool: frames, page table and pins. */
module BufferPool {
  // Every locked method is one atomic step; each is first a function of the pool's state.

  import opened Sequences
  import opened Options
  import opened Bytes
  import opened EvictionPolicy

  type Page = seq<Byte>

  datatype Frame = Frame(pageId: Option<PageId>, data: Page, isValid: bool, isDirty: bool,
                         isPinned: bool, pinCount: nat, inDegree: nat)

  /** `refused` records the pages that eviction picked, and dropped from the queues, while they
      were pinned: they stay resident. */
  datatype Pool = Pool(frames: seq<Frame>, table: map<PageId, nat>, free: seq<nat>, queues: Queues,
                       refused: set<PageId>)

  /** A pool before its first load. Frame 0 is handed out first. */
  function EmptyPool(size: nat, hotMax: nat, hub: nat): Pool {
    Pool(seq(size, _ => Frame(None, [], false, false, false, 0, 0)), map[], seq(size, i => size - 1 - i),
         Queues([], [], map[], hotMax, hub), {})
  }

  // ---------------------------------------------------------------------------------------
  // Invariants
  // ---------------------------------------------------------------------------------------

  /** The page table and the free list split the frames between them. */
  ghost predicate Mapped(s: Pool) {
    && NoRepeats(s.free)
    && (forall i :: i in s.free ==> i < |s.frames| && !s.frames[i].isValid)
    && (forall i :: 0 <= i < |s.frames| && !s.frames[i].isValid ==> i in s.free)
    && (forall p :: p in s.table ==>
          s.table[p] < |s.frames| && s.frames[s.table[p]].isValid && s.frames[s.table[p]].pageId == Some(p))
    && (forall i :: 0 <= i < |s.frames| && s.frames[i].isValid ==>
          s.frames[i].pageId.Some? && s.frames[i].pageId.value in s.table && s.table[s.frames[i].pageId.value] == i)
  }

  ghost predicate PinsAgree(s: Pool) {
    && (forall i :: 0 <= i < |s.frames| ==> (s.frames[i].isPinned <==> s.frames[i].pinCount > 0))
    && (forall i :: 0 <= i < |s.frames| && !s.frames[i].isValid ==> s.frames[i].pinCount == 0)
  }

  /** Resident pages are the queued ones and those whose eviction was refused. */
  ghost predicate QueuesAgree(s: Pool) {
    && Ordered(s.queues)
    && s.table.Keys == Queued(s.queues) + s.refused
    && Queued(s.queues) !! s.refused
  }

  ghost predicate Consistent(s: Pool) {
    Mapped(s) && PinsAgree(s) && QueuesAgree(s)
  }

  lemma EmptyConsistent(size: nat, hotMax: nat, hub: nat)
    ensures Consistent(EmptyPool(size, hotMax, hub))
    ensures forall p :: PinsOf(EmptyPool(size, hotMax, hub), p) == 0
  {
    var s := EmptyPool(size, hotMax, hub);
    forall i | 0 <= i < size ensures i in s.free {
      assert s.free[size - 1 - i] == i;
    }
  }

  /** Every resident frame holds its page's bytes on disk. */
  ghost predicate Faithful(s: Pool, disk: map<PageId, Page>) {
    forall p :: p in s.table ==> p in disk && s.table[p] < |s.frames| && s.frames[s.table[p]].data == disk[p]
  }

  /** Page p sits, pinned, in frame f. */
  predicate PinnedAt(s: Pool, p: PageId, f: nat) {
    p in s.table && s.table[p] == f && f < |s.frames| && s.frames[f].isPinned
  }

  function PinsOf(s: Pool, p: PageId): nat {
    if p in s.table && s.table[p] < |s.frames| then s.frames[s.table[p]].pinCount else 0
  }

  /** What one thread's call may not do to another thread's pages. */
  ghost predicate KeepsPinned(s: Pool, t: Pool) {
    forall p: PageId, f: nat :: PinnedAt(s, p, f) ==> PinnedAt(t, p, f) && t.frames[f].data == s.frames[f].data
  }

  // ---------------------------------------------------------------------------------------
  // Operations
  // ---------------------------------------------------------------------------------------

  function Touch(s: Pool, p: PageId): Pool
    requires p in s.table && s.table[p] < |s.frames|
  {
    s.(queues := OnAccess(s.queues, p, s.frames[s.table[p]].inDegree))
  }

  function SetPins(s: Pool, p: PageId, count: nat): Pool
    requires p in s.table && s.table[p] < |s.frames|
  {
    s.(frames := s.frames[s.table[p] := s.frames[s.table[p]].(pinCount := count, isPinned := count > 0)])
  }

  function GetPage(s: Pool, p: PageId): (Pool, Option<nat>)
    requires Mapped(s)
  {
    if p in s.table then (Touch(s, p), Some(s.table[p])) else (s, None)
  }

  function PinPage(s: Pool, p: PageId): (Pool, bool)
    requires Mapped(s)
  {
    if p in s.table then (SetPins(s, p, PinsOf(s, p) + 1), true) else (s, false)
  }

  function UnpinPage(s: Pool, p: PageId): (Pool, bool)
    requires Mapped(s)
  {
    if p in s.table then (SetPins(s, p, if PinsOf(s, p) > 0 then PinsOf(s, p) - 1 else 0), true) else (s, false)
  }

  function GetAndPin(s: Pool, p: PageId): (Pool, Option<nat>)
    requires Mapped(s)
  {
    if p in s.table then (SetPins(Touch(s, p), p, PinsOf(s, p) + 1), Some(s.table[p])) else (s, None)
  }

  /** A victim that turns out to be pinned has already left the queues, and is kept. */
  function Evict(s: Pool): (Pool, bool)
    requires Mapped(s)
  {
    var (queues, victim) := PickVictim(s.queues);
    var t := s.(queues := queues);
    if victim.None? || victim.value !in s.table then (t, false)
    else
      var f := s.table[victim.value];
      if s.frames[f].isPinned then (t.(refused := s.refused + {victim.value}), false)
      else
        (t.(table := s.table - {victim.value},
            frames := s.frames[f := s.frames[f].(isValid := false, isDirty := false, pageId := None)],
            free := s.free + [f]), true)
  }

  function PopFree(s: Pool): (Pool, nat)
    requires s.free != []
  {
    (s.(free := s.free[..|s.free| - 1]), s.free[|s.free| - 1])
  }

  /** A frame for a new page, evicting one if none is free. */
  function TakeFrame(s: Pool): (Pool, Option<nat>)
    requires Mapped(s)
  {
    if s.free != [] then
      var (t, f) := PopFree(s);
      (t, Some(f))
    else
      var (t, ok) := Evict(s);
      if !ok || t.free == [] then (t, None)
      else
        var (u, f) := PopFree(t);
        (u, Some(f))
  }

  function Install(s: Pool, f: nat, p: PageId, data: Page, pin: bool): Pool
    requires f < |s.frames|
  {
    var frame := s.frames[f].(pageId := Some(p), data := data, isValid := true, isDirty := false);
    var frame := if pin then frame.(isPinned := true, pinCount := 1) else frame;
    s.(frames := s.frames[f := frame], table := s.table[p := f], queues := OnAdd(s.queues, p, frame.inDegree))
  }

  /** The second half of a load: under the write lock, checks the table again. */
  function LoadIfAbsent(s: Pool, p: PageId, data: Page): (Pool, Option<nat>)
    requires Mapped(s)
  {
    if p in s.table then (s, Some(s.table[p]))
    else
      var (t, f) := TakeFrame(s);
      if f.None? || f.value >= |t.frames| then (t, None) else (Install(t, f.value, p, data, false), f)
  }

  function LoadAndPin(s: Pool, p: PageId, data: Page): (Pool, Option<nat>)
    requires Mapped(s)
  {
    if p in s.table then GetAndPin(s, p)
    else
      var (t, f) := TakeFrame(s);
      if f.None? || f.value >= |t.frames| then (t, None) else (Install(t, f.value, p, data, true), f)
  }

  function SetInDegree(s: Pool, p: PageId, degree: nat): Pool
    requires Mapped(s)
  {
    if p in s.table then
      s.(frames := s.frames[s.table[p] := s.frames[s.table[p]].(inDegree := degree)],
         queues := s.queues.(degree := s.queues.degree[p := degree]))
    else s
  }

  // ---------------------------------------------------------------------------------------
  // What every operation keeps
  // ---------------------------------------------------------------------------------------

  lemma TouchKeeps(s: Pool, p: PageId, disk: map<PageId, Page>)
    requires Consistent(s) && Faithful(s, disk) && p in s.table
    ensures Consistent(Touch(s, p)) && Faithful(Touch(s, p), disk) && KeepsPinned(s, Touch(s, p))
  {
    OnAccessKeeps(s.queues, p, s.frames[s.table[p]].inDegree);
  }

  lemma SetPinsKeeps(s: Pool, p: PageId, count: nat, disk: map<PageId, Page>)
    requires Consistent(s) && Faithful(s, disk) && p in s.table
    ensures Consistent(SetPins(s, p, count)) && Faithful(SetPins(s, p, count), disk)
    ensures forall o: PageId, f: nat :: o != p && PinnedAt(s, o, f) ==>
      PinnedAt(SetPins(s, p, count), o, f) && SetPins(s, p, count).frames[f].data == s.frames[f].data
    ensures count > 0 ==> KeepsPinned(s, SetPins(s, p, count))
    ensures forall o :: PinsOf(SetPins(s, p, count), o) == if o == p then count else PinsOf(s, o)
  {
  }

  /** A victim is a resident page that was not refused before. */
  lemma VictimIsResident(s: Pool)
    requires QueuesAgree(s)
    ensures var v := PickVictim(s.queues).1; v.Some? ==> v.value in s.table && v.value !in s.refused
  {
    PickVictimKeeps(s.queues);
    var v := PickVictim(s.queues).1;
    if v.Some? { assert v.value in s.table.Keys; }
  }

  lemma EvictQueues(s: Pool)
    requires Consistent(s)
    ensures QueuesAgree(Evict(s).0)
  {
    hide PickVictim;
    hide Ordered;
    PickVictimKeeps(s.queues);
    VictimIsResident(s);
  }

  lemma EvictFrames(s: Pool, disk: map<PageId, Page>)
    requires Consistent(s) && Faithful(s, disk)
    ensures var (t, ok) := Evict(s);
      && Faithful(t, disk) && KeepsPinned(s, t)
      && |t.frames| == |s.frames| && t.table.Keys <= s.table.Keys && s.refused <= t.refused
      && (!ok ==> t.frames == s.frames && t.table == s.table && t.free == s.free)
  {
    hide PickVictim;
    hide Ordered;
    hide Queued;
    VictimIsResident(s);
  }

  lemma EvictKeeps(s: Pool, disk: map<PageId, Page>)
    requires Consistent(s) && Faithful(s, disk)
    ensures var (t, ok) := Evict(s);
      && Consistent(t) && Faithful(t, disk) && KeepsPinned(s, t)
      && |t.frames| == |s.frames| && t.table.Keys <= s.table.Keys
      && (forall o :: PinsOf(t, o) == PinsOf(s, o))
      && s.refused <= t.refused
      && (ok ==> t.free != [])
      && (!ok ==> t.frames == s.frames && t.table == s.table && t.free == s.free)
  {
    hide Evict;
    hide QueuesAgree;
    hide Faithful;
    EvictFrames(s, disk);
    EvictQueues(s);
    if Evict(s).1 { EvictMapped(s); }
  }

  /** A page becomes refused only because it was pinned when it was picked. */
  lemma RefusedWerePinned(s: Pool)
    requires Consistent(s)
    ensures forall p :: p in Evict(s).0.refused && p !in s.refused ==> PinsOf(s, p) > 0
  {
  }

  /** With nothing pinned, eviction succeeds exactly when the hot queue has a capacity and some resident
      page was never refused. */
  lemma EvictsExactly(s: Pool)
    requires Consistent(s) && forall p :: PinsOf(s, p) == 0
    ensures Evict(s).1 <==> s.queues.hotMax >= 1 && s.refused != s.table.Keys
  {
    NoVictimExactly(s.queues);
    PickVictimKeeps(s.queues);
    var victim := PickVictim(s.queues).1;
    if victim.Some? {
      assert victim.value in s.table.Keys && victim.value !in s.refused;
      assert PinsOf(s, victim.value) == 0;
    } else if s.queues.hotMax >= 1 {
      assert Queued(s.queues) == {};
    }
  }

  /** Whether a page that is not resident can be loaded. */
  predicate HasRoom(s: Pool) {
    s.free != [] || (s.queues.hotMax >= 1 && s.refused != s.table.Keys)
  }

  /** With nothing pinned, an absent page can be loaded, pinned or not, exactly when a frame is free, or the
      hot queue has a capacity and some resident page was never refused. */
  lemma LoadsExactly(s: Pool, p: PageId, data: Page)
    requires Consistent(s) && p !in s.table && forall o :: PinsOf(s, o) == 0
    ensures LoadIfAbsent(s, p, data).1.Some? <==> HasRoom(s)
    ensures LoadAndPin(s, p, data).1.Some? <==> HasRoom(s)
  {
    EvictsExactly(s);
    if s.free != [] {
      PopFreeUndone(s);
    } else if Evict(s).1 {
      EvictMapped(s);
      PopFreeUndone(Evict(s).0);
    }
  }

  lemma EvictMapped(s: Pool)
    requires Consistent(s) && Evict(s).1
    ensures Mapped(Evict(s).0) && PinsAgree(Evict(s).0)
    ensures forall o :: PinsOf(Evict(s).0, o) == PinsOf(s, o)
    ensures Evict(s).0.free != []
  {
    var victim := PickVictim(s.queues).1.value;
    var f := s.table[victim];
    assert f !in s.free;
    assert (s.free + [f])[|s.free|] == f;
  }

  /** The pool a new frame is taken from. */
  function Donor(s: Pool): Pool
    requires Mapped(s)
  {
    if s.free != [] then s else Evict(s).0
  }

  lemma DonorKeeps(s: Pool, disk: map<PageId, Page>)
    requires Consistent(s) && Faithful(s, disk)
    ensures var t := Donor(s);
      && Consistent(t) && Faithful(t, disk) && KeepsPinned(s, t)
      && |t.frames| == |s.frames| && t.table.Keys <= s.table.Keys
      && (forall o :: PinsOf(t, o) == PinsOf(s, o))
      && s.refused <= t.refused
  {
    EvictKeeps(s, disk);
  }

  /** After a frame is taken, giving it back would make the donor whole again. */
  lemma TakeFrameUndone(s: Pool, disk: map<PageId, Page>)
    requires Consistent(s) && Faithful(s, disk)
    ensures var (t, f) := TakeFrame(s);
      && (f.None? ==> t == Donor(s) && t.table == s.table)
      && (f.Some? ==> t.(free := t.free + [f.value]) == Donor(s) && f.value !in t.free && f.value < |s.frames|)
  {
    EvictKeeps(s, disk);
    if Donor(s).free != [] {
      PopFreeUndone(Donor(s));
    }
  }

  lemma PopFreeUndone(s: Pool)
    requires Mapped(s) && s.free != []
    ensures var (t, f) := PopFree(s);
      t.(free := t.free + [f]) == s && f !in t.free && f < |s.frames|
  {
    var last := |s.free| - 1;
    assert s.free == s.free[..last] + [s.free[last]];
    NoRepeatsAppend(s.free[..last], s.free[last]);
    assert s.free[last] in s.free;
  }

  lemma InstallKeeps(s: Pool, f: nat, p: PageId, pin: bool, disk: map<PageId, Page>)
    requires f !in s.free && f < |s.frames| && Consistent(s.(free := s.free + [f])) && Faithful(s, disk)
    requires p in disk && p !in s.table
    ensures var t := Install(s, f, p, disk[p], pin);
      && Consistent(t) && Faithful(t, disk) && KeepsPinned(s, t)
      && (forall o :: PinsOf(t, o) == if o == p then (if pin then 1 else 0) else PinsOf(s, o))
      && t.refused == s.refused && t.table == s.table[p := f]
  {
    hide OnAdd;
    InstallMapped(s, f, p, disk[p], pin);
    InstallQueues(s, f, p, disk[p], pin);
    NotMappedYet(s, f);
    InstallFrames(s, f, p, pin, disk);
  }

  lemma NotMappedYet(s: Pool, f: nat)
    requires Mapped(s.(free := s.free + [f])) && f !in s.free && f < |s.frames|
    ensures !s.frames[f].isValid && forall o :: o in s.table ==> s.table[o] != f
  {
    assert f in s.(free := s.free + [f]).free;
  }

  lemma InstallQueues(s: Pool, f: nat, p: PageId, data: Page, pin: bool)
    requires f < |s.frames| && QueuesAgree(s) && p !in s.table
    ensures QueuesAgree(Install(s, f, p, data, pin))
  {
    hide OnAdd;
    hide Ordered;
    assert p !in s.table.Keys;
    OnAddKeeps(s.queues, p, s.frames[f].inDegree);
  }

  lemma InstallFrames(s: Pool, f: nat, p: PageId, pin: bool, disk: map<PageId, Page>)
    requires f < |s.frames| && Faithful(s, disk) && p in disk && p !in s.table
    requires s.frames[f].pinCount == 0 && forall o :: o in s.table ==> s.table[o] != f
    ensures var t := Install(s, f, p, disk[p], pin);
      && Faithful(t, disk) && KeepsPinned(s, t)
      && forall o :: PinsOf(t, o) == if o == p then (if pin then 1 else 0) else PinsOf(s, o)
  {
    hide OnAdd;
  }

  lemma InstallMapped(s: Pool, f: nat, p: PageId, data: Page, pin: bool)
    requires f !in s.free && f < |s.frames| && p !in s.table
    requires Mapped(s.(free := s.free + [f])) && PinsAgree(s)
    ensures !s.frames[f].isValid
    ensures Mapped(Install(s, f, p, data, pin)) && PinsAgree(Install(s, f, p, data, pin))
  {
    var whole := s.(free := s.free + [f]);
    assert f in whole.free;
    assert forall i :: i in whole.free <==> i in s.free || i == f;
    NoRepeatsAppend(s.free, f);
  }

  /** Installing into a frame taken from w keeps what w keeps of s. */
  lemma InstallTaken(s: Pool, w: Pool, t: Pool, f: nat, p: PageId, pin: bool, disk: map<PageId, Page>)
    requires Consistent(w) && Faithful(w, disk) && KeepsPinned(s, w)
    requires t.(free := t.free + [f]) == w && f !in t.free && f < |t.frames|
    requires p in disk && p !in t.table
    ensures var u := Install(t, f, p, disk[p], pin);
      && Consistent(u) && Faithful(u, disk) && KeepsPinned(s, u) && u.refused == w.refused
      && u.table == w.table[p := f]
      && (forall o :: PinsOf(u, o) == if o == p then (if pin then 1 else 0) else PinsOf(w, o))
  {
    InstallKeeps(t, f, p, pin, disk);
    assert forall o, g: nat :: PinnedAt(w, o, g) <==> PinnedAt(t, o, g);
  }

  /** Loading a page that is not resident, pinned or not, keeps every invariant and every other
      page's pins; when it fails, the table is as it was. */
  lemma LoadKeeps(s: Pool, p: PageId, pin: bool, disk: map<PageId, Page>)
    requires Consistent(s) && Faithful(s, disk) && p in disk && p !in s.table
    ensures var (t, f) := if pin then LoadAndPin(s, p, disk[p]) else LoadIfAbsent(s, p, disk[p]);
      && Consistent(t) && Faithful(t, disk) && KeepsPinned(s, t) && s.refused <= t.refused
      && (f.Some? ==> p in t.table && t.table[p] == f.value)
      && (f.None? ==> t.table == s.table)
      && (forall o :: PinsOf(t, o) == PinsOf(s, o) + if o == p && pin && f.Some? then 1 else 0)
  {
    hide PinsAgree;
    hide QueuesAgree;
    hide Mapped;
    hide TakeFrame;
    hide Install;
    hide Donor;
    hide KeepsPinned;
    DonorKeeps(s, disk);
    TakeFrameUndone(s, disk);
    var (t, f) := TakeFrame(s);
    if f.Some? {
      InstallTaken(s, Donor(s), t, f.value, p, pin, disk);
    }
  }
}
