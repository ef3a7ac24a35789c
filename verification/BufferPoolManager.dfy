/** The buffer pool object: the frames, the free list, the page table and the policy it updates in
    place. Each method does to them what the function of the same step says. */
module BufferPoolManagers {
  import opened Sequences
  import opened Options
  import opened EvictionPolicy
  import opened BufferPool

  class BufferPoolManager {
    const maxPages: nat
    const frames: array<Frame>
    const policy: TwoQueueEvictionPolicy
    var pageTable: map<PageId, nat>
    var freeFrames: seq<nat>
    ghost var refused: set<PageId>

    ghost function State(): Pool
      reads this, frames, policy
    {
      Pool(frames[..], pageTable, freeFrames, policy.State(), refused)
    }

    ghost predicate Valid()
      reads this, frames, policy
    {
      Consistent(State())
    }

    constructor (maxPages: nat, hotQueueRatio: real)
      requires hotQueueRatio >= 0.0
      ensures Valid() && fresh(frames) && fresh(policy)
      ensures frames.Length == maxPages && State().table == map[] && State().refused == {}
      ensures |State().free| == maxPages && forall p :: PinsOf(State(), p) == 0
      ensures State() == EmptyPool(maxPages, (maxPages as real * hotQueueRatio).Floor, 2)
    {
      hide Consistent;
      assert maxPages as real * hotQueueRatio >= 0.0;
      EmptyConsistent(maxPages, (maxPages as real * hotQueueRatio).Floor, 2);
      this.maxPages := maxPages;
      frames := new Frame[maxPages](_ => Frame(None, [], false, false, false, 0, 0));
      policy := new TwoQueueEvictionPolicy(maxPages, hotQueueRatio);
      pageTable, freeFrames, refused := map[], [], {};
      new;
      freeFrames := AllFrames(maxPages);
      assert freeFrames == seq(maxPages, i => maxPages - 1 - i);
      assert frames[..] == seq(maxPages, _ => Frame(None, [], false, false, false, 0, 0));
    }

    /** The free list of an empty pool: frame 0 is handed out first. */
    static method AllFrames(n: nat) returns (free: seq<nat>)
      ensures |free| == n && forall j :: 0 <= j < n ==> free[j] == n - 1 - j
      ensures NoRepeats(free) && forall i :: i in free <==> 0 <= i < n
    {
      free := [];
      for i := n downto 0
        invariant |free| == n - i && forall j :: 0 <= j < |free| ==> free[j] == n - 1 - j
      {
        free := free + [i];
      }
      forall i | 0 <= i < n ensures i in free {
        assert free[n - 1 - i] == i;
      }
    }

    method GetPage(pageId: PageId) returns (frame: Option<nat>)
      requires Valid()
      modifies this, frames, policy
      ensures (State(), frame) == BufferPool.GetPage(old(State()), pageId)
    {
      if pageId !in pageTable { return None; }
      var f := pageTable[pageId];
      policy.AccessPage(pageId, frames[f].inDegree);
      return Some(f);
    }

    method PinPage(pageId: PageId) returns (ok: bool)
      requires Valid()
      modifies this, frames, policy
      ensures (State(), ok) == BufferPool.PinPage(old(State()), pageId)
    {
      if pageId !in pageTable { return false; }
      var f := pageTable[pageId];
      frames[f] := frames[f].(isPinned := true);
      frames[f] := frames[f].(pinCount := frames[f].pinCount + 1);
      assert frames[..] == BufferPool.PinPage(old(State()), pageId).0.frames;
      return true;
    }

    method UnpinPage(pageId: PageId) returns (ok: bool)
      requires Valid()
      modifies this, frames, policy
      ensures (State(), ok) == BufferPool.UnpinPage(old(State()), pageId)
    {
      if pageId !in pageTable { return false; }
      var f := pageTable[pageId];
      if frames[f].pinCount > 0 {
        frames[f] := frames[f].(pinCount := frames[f].pinCount - 1);
      }
      if frames[f].pinCount == 0 {
        frames[f] := frames[f].(isPinned := false);
      }
      assert frames[..] == BufferPool.UnpinPage(old(State()), pageId).0.frames;
      return true;
    }

    method GetAndPinPage(pageId: PageId) returns (frame: Option<nat>)
      requires Valid()
      modifies this, frames, policy
      ensures (State(), frame) == GetAndPin(old(State()), pageId)
    {
      if pageId !in pageTable { return None; }
      var f := pageTable[pageId];
      policy.AccessPage(pageId, frames[f].inDegree);
      frames[f] := frames[f].(isPinned := true);
      frames[f] := frames[f].(pinCount := frames[f].pinCount + 1);
      assert frames[..] == GetAndPin(old(State()), pageId).0.frames;
      return Some(f);
    }

    method FindFreeFrame() returns (frame: Option<nat>)
      modifies this
      ensures old(freeFrames) == [] ==> frame == None && State() == old(State())
      ensures old(freeFrames) != [] ==>
        frame == Some(PopFree(old(State())).1) && State() == PopFree(old(State())).0
    {
      if freeFrames == [] { return None; }
      frame := Some(freeFrames[|freeFrames| - 1]);
      freeFrames := freeFrames[..|freeFrames| - 1];
    }

    method EvictPage() returns (ok: bool)
      requires Valid()
      modifies this, frames, policy
      ensures (State(), ok) == Evict(old(State()))
    {
      var victim := policy.GetEvictionCandidate();
      if victim.None? { return false; }
      if victim.value !in pageTable { return false; }
      var f := pageTable[victim.value];
      if frames[f].isPinned {
        refused := refused + {victim.value};
        return false;
      }
      pageTable := pageTable - {victim.value};
      frames[f] := frames[f].(isValid := false, isDirty := false, pageId := None);
      freeFrames := freeFrames + [f];
      return true;
    }

    /** Finds a free frame, evicting a page when there is none. */
    method AcquireFrame() returns (frame: Option<nat>)
      requires Valid()
      modifies this, frames, policy
      ensures (State(), frame) == TakeFrame(old(State()))
    {
      frame := FindFreeFrame();
      if frame.Some? { return; }
      var ok := EvictPage();
      if !ok { return None; }
      frame := FindFreeFrame();
    }

    /** Puts a page into a frame, pinned or not, and queues it. */
    method InstallPage(f: nat, pageId: PageId, data: Page, pin: bool)
      requires f < frames.Length
      modifies this, frames, policy
      ensures State() == Install(old(State()), f, pageId, data, pin)
    {
      frames[f] := frames[f].(data := data);
      frames[f] := frames[f].(pageId := Some(pageId), isValid := true, isDirty := false);
      if pin {
        frames[f] := frames[f].(isPinned := true, pinCount := 1);
      }
      assert frames[..] == Install(old(State()), f, pageId, data, pin).frames;
      pageTable := pageTable[pageId := f];
      policy.AddPage(pageId, frames[f].inDegree);
    }

    /** Loads a page under the write lock, after checking again that it is absent. */
    method LoadAbsentPage(pageId: PageId, data: Page) returns (frame: Option<nat>)
      requires Valid()
      modifies this, frames, policy
      ensures (State(), frame) == LoadIfAbsent(old(State()), pageId, data)
    {
      hide TakeFrame;
      hide Install;
      hide Consistent;
      if pageId in pageTable { return Some(pageTable[pageId]); }
      TakenFrameFits(State());
      frame := AcquireFrame();
      if frame.None? { return; }
      InstallPage(frame.value, pageId, data, false);
    }

    method GetOrLoadAndPinPage(pageId: PageId, data: Page) returns (frame: Option<nat>)
      requires Valid()
      modifies this, frames, policy
      ensures (State(), frame) == LoadAndPin(old(State()), pageId, data)
    {
      hide TakeFrame;
      hide Install;
      hide Consistent;
      hide GetAndPin;
      if pageId in pageTable {
        frame := GetAndPinPage(pageId);
        return;
      }
      TakenFrameFits(State());
      frame := AcquireFrame();
      if frame.None? { return; }
      InstallPage(frame.value, pageId, data, true);
    }

    lemma TakenFrameFits(s: Pool)
      requires Consistent(s)
      ensures TakeFrame(s).1.Some? ==> TakeFrame(s).1.value < |TakeFrame(s).0.frames| == |s.frames|
    {
      hide Evict;
      hide TakeFrame;
      hide QueuesAgree;
      hide PinsAgree;
      var disk := map p | p in s.table :: s.frames[s.table[p]].data;
      TakeFrameUndone(s, disk);
      DonorKeeps(s, disk);
    }

    method UpdateInDegree(pageId: PageId, degree: nat)
      requires Valid()
      modifies this, frames, policy
      ensures State() == SetInDegree(old(State()), pageId, degree)
    {
      if pageId in pageTable {
        var f := pageTable[pageId];
        frames[f] := frames[f].(inDegree := degree);
        policy.SetInDegree(pageId, degree);
      }
    }

    /** Empties the pool, dropping all pins. */
    method Clear()
      requires Valid()
      modifies this, frames, policy
      ensures Valid() && State().table == map[] && State().refused == {}
      ensures |State().free| == frames.Length && forall p :: PinsOf(State(), p) == 0
      ensures forall j :: 0 <= j < frames.Length ==> State().free[j] == frames.Length - 1 - j
      ensures State().queues == Queues([], [], map[], old(State()).queues.hotMax, old(State()).queues.hubThreshold)
    {
      pageTable := map[];
      for i := 0 to frames.Length
        invariant pageTable == map[] && policy.State() == old(policy.State())
        invariant forall j :: 0 <= j < i ==> !frames[j].isValid && !frames[j].isPinned && frames[j].pinCount == 0
      {
        frames[i] := frames[i].(isValid := false, isDirty := false, pinCount := 0, isPinned := false);
      }
      freeFrames := AllFrames(frames.Length);
      policy.Clear();
      refused := {};
    }
  }
}
