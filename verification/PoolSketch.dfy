/** Pools drawn as lists. */
module PoolSketches {
  // A pool whose pages were loaded in order into its frames and never looked up, drawn by its lists of
  // pages: what one load, or one unpin, makes of it. Runs of many steps are put together from these.

  import opened Sequences
  import opened Options
  import opened EvictionPolicy
  import opened BufferPool

  /** A pool of `size` frames of which the first hold `pages`; `held` pages are pinned once, `warm` lists
      the pages that are queued. */
  datatype Sketch = Sketch(size: nat, pages: seq<PageId>, held: set<PageId>, warm: seq<PageId>,
                           refused: set<PageId>, hotMax: nat, hub: nat)

  function PagesOf(s: seq<PageId>): set<PageId> {
    set p | p in s
  }

  predicate Drawn(k: Sketch) {
    |k.pages| <= k.size && NoRepeats(k.pages)
  }

  /** Pages, queue and refused pages of the sketch agree. */
  ghost predicate Agree(k: Sketch) {
    && Drawn(k) && NoRepeats(k.warm)
    && (forall p :: p in k.pages <==> p in k.warm || p in k.refused)
    && (forall p :: p in k.warm ==> p !in k.refused)
    && (forall p :: p in k.held ==> p in k.pages)
  }

  function FrameOf(k: Sketch, disk: map<PageId, Page>, i: nat): Frame {
    if i < |k.pages| then
      var p, pins := k.pages[i], if k.pages[i] in k.held then 1 else 0;
      Frame(Some(p), if p in disk then disk[p] else [], true, false, pins > 0, pins, 0)
    else Frame(None, [], false, false, false, 0, 0)
  }

  function TableOf(pages: seq<PageId>): map<PageId, nat> {
    if pages == [] then map[] else TableOf(pages[..|pages| - 1])[pages[|pages| - 1] := |pages| - 1]
  }

  /** Free frames are handed out from the back: frame 0 first. */
  function FreeFrom(size: nat, used: nat): (free: seq<nat>)
    requires used <= size
    ensures |free| == size - used
  {
    seq(size - used, j requires 0 <= j < size - used => size - 1 - j)
  }

  function NoDegrees(warm: seq<PageId>): map<PageId, nat> {
    map p | p in warm :: 0
  }

  function PoolOf(k: Sketch, disk: map<PageId, Page>): Pool
    requires Drawn(k)
  {
    Pool(seq(k.size, i requires 0 <= i < k.size => FrameOf(k, disk, i)), TableOf(k.pages), FreeFrom(k.size, |k.pages|),
         Queues([], k.warm, NoDegrees(k.warm), k.hotMax, k.hub), k.refused)
  }

  lemma SketchEmpty(size: nat, hotMax: nat, hub: nat, disk: map<PageId, Page>)
    ensures PoolOf(Sketch(size, [], {}, [], {}, hotMax, hub), disk) == EmptyPool(size, hotMax, hub)
  {
    var s, t := PoolOf(Sketch(size, [], {}, [], {}, hotMax, hub), disk), EmptyPool(size, hotMax, hub);
    assert s.frames == t.frames && s.free == t.free && s.table == t.table;
    assert s.queues.degree == t.queues.degree;
  }

  lemma SketchMapped(k: Sketch, disk: map<PageId, Page>)
    requires Drawn(k)
    ensures Mapped(PoolOf(k, disk))
  {
    hide TableOf;
    hide NoDegrees;
    TableAt(k.pages);
    var s := PoolOf(k, disk);
    forall i | 0 <= i < |s.frames| && !s.frames[i].isValid ensures i in s.free {
      assert s.free[k.size - 1 - i] == i;
    }
  }

  lemma SketchConsistent(k: Sketch, disk: map<PageId, Page>)
    requires Agree(k)
    ensures Consistent(PoolOf(k, disk)) && forall p :: PinsOf(PoolOf(k, disk), p) == if p in k.held then 1 else 0
  {
    hide TableOf;
    hide FreeFrom;
    hide NoDegrees;
    var s := PoolOf(k, disk);
    SketchMapped(k, disk);
    TableAt(k.pages);
    assert s.table.Keys == Queued(s.queues) + s.refused;
  }

  lemma WarmGrows(warm: seq<PageId>, p: PageId)
    ensures NoDegrees(warm)[p := 0] == NoDegrees(warm + [p])
  {
  }

  lemma WarmShrinks(warm: seq<PageId>)
    requires warm != [] && NoRepeats(warm)
    ensures NoDegrees(warm) - {warm[0]} == NoDegrees(warm[1..])
  {
    assert warm == [warm[0]] + warm[1..];
  }

  lemma LastFree(size: nat, used: nat)
    requires used < size
    ensures var free := FreeFrom(size, used);
      free[|free| - 1] == used && free[..|free| - 1] == FreeFrom(size, used + 1)
  {
  }

  lemma {:induction false} TableAt(pages: seq<PageId>)
    requires NoRepeats(pages)
    ensures forall p :: p in TableOf(pages) <==> p in pages
    ensures forall i :: 0 <= i < |pages| ==> TableOf(pages)[pages[i]] == i
  {
    if pages != [] {
      var rest := pages[..|pages| - 1];
      assert pages == rest + [pages[|pages| - 1]];
      TableAt(rest);
      assert forall i :: 0 <= i < |rest| ==> rest[i] == pages[i];
    }
  }

  lemma TableGrows(pages: seq<PageId>, p: PageId)
    requires NoRepeats(pages) && p !in pages
    ensures NoRepeats(pages + [p]) && TableOf(pages)[p := |pages|] == TableOf(pages + [p])
  {
    NoRepeatsAppend(pages, p);
    hide TableOf;
    var more := pages + [p];
    TableAt(pages);
    TableAt(more);
    forall o | o in more ensures TableOf(more)[o] == TableOf(pages)[p := |pages|][o] {
      var i :| 0 <= i < |more| && more[i] == o;
      assert i < |pages| ==> pages[i] == o;
    }
  }

  lemma ChangedPages(pages: seq<PageId>, at: nat, p: PageId)
    requires NoRepeats(pages) && p !in pages && at < |pages|
    ensures NoRepeats(pages[at := p])
    ensures forall o :: o in pages[at := p] <==> o == p || (o in pages && o != pages[at])
  {
    var changed := pages[at := p];
    assert forall i :: 0 <= i < |pages| && i != at ==> changed[i] == pages[i] && pages[i] in pages;
    forall o ensures o in changed <==> o == p || (o in pages && o != pages[at]) {
      if o in pages && o != pages[at] {
        var i :| 0 <= i < |pages| && pages[i] == o;
        assert changed[i] == o;
      }
      assert changed[at] == p;
    }
  }

  lemma TableChanges(pages: seq<PageId>, at: nat, p: PageId)
    requires NoRepeats(pages) && p !in pages && at < |pages|
    ensures NoRepeats(pages[at := p]) && (TableOf(pages) - {pages[at]})[p := at] == TableOf(pages[at := p])
  {
    ChangedPages(pages, at, p);
    hide TableOf;
    var changed := pages[at := p];
    TableAt(pages);
    TableAt(changed);
    forall o | o in changed ensures TableOf(changed)[o] == (TableOf(pages) - {pages[at]})[p := at][o] {
      var i :| 0 <= i < |changed| && changed[i] == o;
      assert i != at ==> pages[i] == o;
    }
  }

  // ---------------------------------------------------------------------------------------
  // Loads
  // ---------------------------------------------------------------------------------------

  lemma LoadWithFree(s: Pool, p: PageId, data: Page, pin: bool)
    requires Mapped(s) && s.free != [] && p !in s.table
    ensures var (t, f) := PopFree(s);
      && f < |t.frames|
      && (if pin then LoadAndPin(s, p, data) else LoadIfAbsent(s, p, data)) == (Install(t, f, p, data, pin), Some(f))
  {
    assert s.free[|s.free| - 1] in s.free;
  }

  function Loaded(k: Sketch, p: PageId, pin: bool): Sketch {
    k.(pages := k.pages + [p], warm := k.warm + [p], held := if pin then k.held + {p} else k.held)
  }

  lemma InstalledFree(k: Sketch, p: PageId, pin: bool, disk: map<PageId, Page>)
    requires Drawn(k) && |k.pages| < k.size && p !in k.pages && p !in k.held && p in disk
    ensures Drawn(Loaded(k, p, pin))
    ensures Install(PopFree(PoolOf(k, disk)).0, |k.pages|, p, disk[p], pin) == PoolOf(Loaded(k, p, pin), disk)
  {
    hide TableOf;
    hide FreeFrom;
    hide NoDegrees;
    TableGrows(k.pages, p);
    WarmGrows(k.warm, p);
    LastFree(k.size, |k.pages|);
    var t, next := Install(PopFree(PoolOf(k, disk)).0, |k.pages|, p, disk[p], pin), PoolOf(Loaded(k, p, pin), disk);
    assert t.frames == next.frames;
  }

  /** A load into a free frame. */
  lemma LoadsFree(k: Sketch, p: PageId, pin: bool, disk: map<PageId, Page>)
    requires Drawn(k) && |k.pages| < k.size && p !in k.pages && p !in k.held && p in disk
    ensures Mapped(PoolOf(k, disk)) && Drawn(Loaded(k, p, pin))
    ensures var s := PoolOf(k, disk);
      (if pin then LoadAndPin(s, p, disk[p]) else LoadIfAbsent(s, p, disk[p]))
        == (PoolOf(Loaded(k, p, pin), disk), Some(|k.pages|))
  {
    hide Install;
    hide LoadAndPin;
    hide LoadIfAbsent;
    SketchMapped(k, disk);
    LastFree(k.size, |k.pages|);
    InstalledFree(k, p, pin, disk);
    LoadWithFree(PoolOf(k, disk), p, disk[p], pin);
  }

  /** With every frame taken, the oldest queued page makes room, unless it is held. */
  function Replaced(k: Sketch, at: nat, p: PageId): Sketch
    requires at < |k.pages| && k.warm != []
  {
    k.(pages := k.pages[at := p], warm := k.warm[1..] + [p])
  }

  lemma EvictsOldest(k: Sketch, at: nat, disk: map<PageId, Page>)
    requires Agree(k) && |k.pages| == k.size && k.warm != [] && k.hotMax >= 1
    requires at < |k.pages| && k.pages[at] == k.warm[0] && k.warm[0] !in k.held
    ensures Mapped(PoolOf(k, disk))
    ensures var s, frame := PoolOf(k, disk), FrameOf(k, disk, at);
      Evict(s) == (s.(queues := s.queues.(warm := k.warm[1..], degree := NoDegrees(k.warm[1..])),
                      table := s.table - {k.warm[0]},
                      frames := s.frames[at := frame.(isValid := false, isDirty := false, pageId := None)],
                      free := [at]), true)
  {
    hide NoDegrees;
    hide TableOf;
    SketchMapped(k, disk);
    WarmShrinks(k.warm);
    TableAt(k.pages);
    var s := PoolOf(k, disk);
    assert s.free + [at] == [at];
  }

  lemma LoadEvicting(s: Pool, p: PageId, data: Page, at: nat)
    requires Mapped(s) && s.free == [] && p !in s.table && Evict(s).1 && Evict(s).0.free == [at] && at < |s.frames|
    requires |Evict(s).0.frames| == |s.frames|
    ensures LoadIfAbsent(s, p, data) == (Install(Evict(s).0.(free := []), at, p, data, false), Some(at))
  {
    hide Evict;
    assert [at][..0] == [];
  }

  /** A load that evicts. */
  lemma LoadsReplacing(k: Sketch, at: nat, p: PageId, disk: map<PageId, Page>)
    requires Agree(k) && |k.pages| == k.size && k.warm != [] && k.hotMax >= 1 && p !in k.pages && p in disk
    requires at < |k.pages| && k.pages[at] == k.warm[0] && k.warm[0] !in k.held
    ensures Mapped(PoolOf(k, disk)) && Drawn(Replaced(k, at, p))
    ensures LoadIfAbsent(PoolOf(k, disk), p, disk[p]) == (PoolOf(Replaced(k, at, p), disk), Some(at))
  {
    hide Evict;
    hide LoadIfAbsent;
    hide TableOf;
    hide NoDegrees;
    EvictsOldest(k, at, disk);
    TableAt(k.pages);
    LoadEvicting(PoolOf(k, disk), p, disk[p], at);
    TableChanges(k.pages, at, p);
    WarmGrows(k.warm[1..], p);
    var next := PoolOf(Replaced(k, at, p), disk);
    var t := Install(Evict(PoolOf(k, disk)).0.(free := []), at, p, disk[p], false);
    assert t.frames == next.frames;
    assert t.free == next.free;
  }

  /** A load refused because the oldest queued page is held. */
  function Refusing(k: Sketch): Sketch
    requires k.warm != []
  {
    k.(warm := k.warm[1..], refused := k.refused + {k.warm[0]})
  }

  lemma EvictRefused(k: Sketch, disk: map<PageId, Page>)
    requires Agree(k) && k.warm != [] && k.hotMax >= 1 && k.warm[0] in k.held
    ensures Mapped(PoolOf(k, disk)) && Evict(PoolOf(k, disk)) == (PoolOf(Refusing(k), disk), false)
  {
    hide NoDegrees;
    hide FreeFrom;
    hide TableOf;
    SketchMapped(k, disk);
    WarmShrinks(k.warm);
    TableAt(k.pages);
    var s, next := PoolOf(k, disk), PoolOf(Refusing(k), disk);
    var at :| 0 <= at < |k.pages| && k.pages[at] == k.warm[0];
    assert s.table[k.warm[0]] == at && s.frames[at].isPinned;
    assert next.frames == s.frames;
  }

  lemma LoadFailing(s: Pool, p: PageId, data: Page, pin: bool)
    requires Mapped(s) && s.free == [] && p !in s.table && !Evict(s).1
    ensures (if pin then LoadAndPin(s, p, data) else LoadIfAbsent(s, p, data)) == (Evict(s).0, None)
  {
    hide Evict;
  }

  lemma LoadsRefused(k: Sketch, p: PageId, pin: bool, disk: map<PageId, Page>)
    requires Agree(k) && |k.pages| == k.size && k.warm != [] && k.hotMax >= 1 && p !in k.pages
    requires k.warm[0] in k.held && p in disk
    ensures Mapped(PoolOf(k, disk))
    ensures var s := PoolOf(k, disk);
      (if pin then LoadAndPin(s, p, disk[p]) else LoadIfAbsent(s, p, disk[p])) == (PoolOf(Refusing(k), disk), None)
  {
    hide Evict;
    hide LoadAndPin;
    hide LoadIfAbsent;
    hide TableOf;
    hide NoDegrees;
    EvictRefused(k, disk);
    TableAt(k.pages);
    LoadFailing(PoolOf(k, disk), p, disk[p], pin);
  }

  /** The last unpin of a page. */
  lemma Unpins(k: Sketch, p: PageId, disk: map<PageId, Page>)
    requires Agree(k) && p in k.held
    ensures Mapped(PoolOf(k, disk))
    ensures UnpinPage(PoolOf(k, disk), p) == (PoolOf(k.(held := k.held - {p}), disk), true)
  {
    hide TableOf;
    hide FreeFrom;
    hide NoDegrees;
    hide Mapped;
    SketchMapped(k, disk);
    TableAt(k.pages);
    var s, next := PoolOf(k, disk), PoolOf(k.(held := k.held - {p}), disk);
    var at :| 0 <= at < |k.pages| && k.pages[at] == p;
    assert s.table[p] == at && PinsOf(s, p) == 1;
    assert UnpinPage(s, p).0.frames == next.frames;
  }
}
