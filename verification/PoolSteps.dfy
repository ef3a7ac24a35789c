/** Exactly what each pool operation changes. */
module PoolSteps {
  // Which frame, which page, which pin count and which place in the queues, for every operation in every
  // consistent pool; everything not named stays as it is.

  import opened Sequences
  import opened Options
  import opened EvictionPolicy
  import opened BufferPool

  /** Only frame f differs. */
  predicate OnlyFrame(s: seq<Frame>, t: seq<Frame>, f: nat) {
    |s| == |t| && f < |s| && forall i :: 0 <= i < |s| && i != f ==> t[i] == s[i]
  }

  /** Only the pin count of a page's frame differs, and the flag follows it. */
  predicate OnlyPins(s: Pool, t: Pool, p: PageId, count: nat) {
    && t.table == s.table && t.free == s.free && t.refused == s.refused
    && p in s.table && OnlyFrame(s.frames, t.frames, s.table[p])
    && t.frames[s.table[p]] == s.frames[s.table[p]].(pinCount := count, isPinned := count > 0)
  }

  /** A lookup finds exactly the resident pages, and tells the policy of each hit; with a pin it also counts one
      more. A page that is absent changes nothing. */
  lemma LookupExactly(s: Pool, p: PageId)
    requires Mapped(s)
    ensures p !in s.table ==> GetPage(s, p) == (s, None) && GetAndPin(s, p) == (s, None)
    ensures p in s.table ==>
      && GetPage(s, p).1 == GetAndPin(s, p).1 == Some(s.table[p])
      && GetPage(s, p).0 == s.(queues := OnAccess(s.queues, p, s.frames[s.table[p]].inDegree))
      && OnlyPins(s, GetAndPin(s, p).0, p, s.frames[s.table[p]].pinCount + 1)
      && GetAndPin(s, p).0.queues == GetPage(s, p).0.queues
  {
  }

  /** Pins are counted one up and one down, not below zero, and the policy is not told. */
  lemma PinAndUnpinExactly(s: Pool, p: PageId)
    requires Mapped(s)
    ensures PinPage(s, p).1 == UnpinPage(s, p).1 == (p in s.table)
    ensures p !in s.table ==> PinPage(s, p).0 == UnpinPage(s, p).0 == s
    ensures PinPage(s, p).0.queues == UnpinPage(s, p).0.queues == s.queues
    ensures p in s.table ==>
      var pins := s.frames[s.table[p]].pinCount;
      && OnlyPins(s, PinPage(s, p).0, p, pins + 1)
      && OnlyPins(s, UnpinPage(s, p).0, p, if pins == 0 then 0 else pins - 1)
  {
  }

  /** A new in-degree goes to the page's frame and to the policy, if the page is resident. */
  lemma SetInDegreeExactly(s: Pool, p: PageId, degree: nat)
    requires Mapped(s)
    ensures var t := SetInDegree(s, p, degree);
      && (p !in s.table ==> t == s)
      && (p in s.table ==>
            && t == s.(frames := t.frames, queues := t.queues) && OnlyFrame(s.frames, t.frames, s.table[p])
            && t.frames[s.table[p]] == s.frames[s.table[p]].(inDegree := degree)
            && t.queues == s.queues.(degree := t.queues.degree)
            && t.queues.degree == s.queues.degree[p := degree])
  {
  }

  /** The page the policy gives up can go: there is one, and it is not pinned. */
  predicate CanEvict(s: Pool) {
    var v := PickVictim(s.queues).1;
    v.Some? && v.value in s.table && PinsOf(s, v.value) == 0
  }

  /** What a page leaves behind when it is evicted. */
  predicate Vacated(s: Pool, t: Pool, v: PageId) {
    && v in s.table && OnlyFrame(s.frames, t.frames, s.table[v])
    && t.frames[s.table[v]] == s.frames[s.table[v]].(isValid := false, isDirty := false, pageId := None)
    && t.table == s.table - {v} && t.free == s.free + [s.table[v]] && t.refused == s.refused
  }

  /** Eviction succeeds exactly when the page the policy gives up is not pinned: only that page goes, and its
      frame is the next to be handed out. Otherwise every page stays, and a pinned one given up is refused. */
  lemma EvictExactly(s: Pool)
    requires Consistent(s)
    ensures var (t, ok) := Evict(s);
      var v := PickVictim(s.queues).1;
      && (ok <==> CanEvict(s))
      && t.queues == PickVictim(s.queues).0
      && (v.Some? ==> v.value in s.table)
      && (ok ==> Vacated(s, t, v.value))
      && (!ok ==> t == s.(queues := t.queues, refused := s.refused + if v.Some? then {v.value} else {}))
  {
    hide PickVictim;
    VictimIsResident(s);
  }

  /** A page is in frame f: its bytes are new, its in-degree is the one left in the frame, and it is pinned at
      most once. It joins the back of the warm queue. */
  predicate Placed(s: Pool, t: Pool, f: nat, p: PageId, data: Page, pin: bool) {
    && OnlyFrame(s.frames, t.frames, f)
    && t.frames[f] == Frame(Some(p), data, true, false, pin || s.frames[f].isPinned,
                            if pin then 1 else s.frames[f].pinCount, s.frames[f].inDegree)
    && t.table == s.table[p := f] && t.refused == s.refused
    && t.queues.hot == s.queues.hot && t.queues.warm == s.queues.warm + [p]
    && t.queues.degree == s.queues.degree[p := s.frames[f].inDegree]
    && t.queues.hotMax == s.queues.hotMax && t.queues.hubThreshold == s.queues.hubThreshold
  }

  lemma InstallPlaces(s: Pool, f: nat, p: PageId, data: Page, pin: bool)
    requires f < |s.frames|
    ensures Placed(s, Install(s, f, p, data, pin), f, p, data, pin) && Install(s, f, p, data, pin).free == s.free
  {
  }

  /** Loading an absent page, pinned or not: it takes the last free frame; with none free, that of the page the
      policy gives up, if that can be evicted; else the load fails and every resident page stays. */
  lemma LoadExactly(s: Pool, p: PageId, data: Page, pin: bool)
    requires Consistent(s) && p !in s.table
    ensures var (t, frame) := if pin then LoadAndPin(s, p, data) else LoadIfAbsent(s, p, data);
      if s.free != [] then
        var f := s.free[|s.free| - 1];
        && frame == Some(f) && t.free == s.free[..|s.free| - 1]
        && Placed(s, t, f, p, data, pin)
      else if CanEvict(s) then
        var v := PickVictim(s.queues).1.value;
        && frame == Some(s.table[v]) && t.free == [] && Vacated(s, Evict(s).0, v)
        && Placed(Evict(s).0, t, s.table[v], p, data, pin)
      else
        frame == None && t == Evict(s).0 && t.table == s.table && t.frames == s.frames && t.free == []
  {
    hide Evict;
    hide PickVictim;
    hide Install;
    EvictExactly(s);
    if s.free != [] {
      assert s.free[|s.free| - 1] in s.free;
      InstallPlaces(PopFree(s).0, PopFree(s).1, p, data, pin);
    } else if CanEvict(s) {
      var e := Evict(s).0;
      assert e.free == [s.table[PickVictim(s.queues).1.value]];
      InstallPlaces(PopFree(e).0, PopFree(e).1, p, data, pin);
    }
  }

  /** Loading a page that is resident finds it where it is; without a pin the policy is not told. */
  lemma LoadResidentExactly(s: Pool, p: PageId, data: Page)
    requires Mapped(s) && p in s.table
    ensures LoadIfAbsent(s, p, data) == (s, Some(s.table[p]))
    ensures LoadAndPin(s, p, data) == GetAndPin(s, p)
  {
  }

  /** A freed frame is not pinned, so a page loaded without a pin has none. */
  lemma LoadedPins(s: Pool, p: PageId, data: Page, pin: bool)
    requires Consistent(s) && p !in s.table
    ensures var (t, frame) := if pin then LoadAndPin(s, p, data) else LoadIfAbsent(s, p, data);
      frame.Some? ==> frame.value < |t.frames| && t.frames[frame.value].pinCount == if pin then 1 else 0
  {
    hide Evict;
    hide LoadAndPin;
    hide LoadIfAbsent;
    hide PickVictim;
    LoadExactly(s, p, data, pin);
    if s.free != [] { assert s.free[|s.free| - 1] in s.free; }
  }
}
