/** Compaction: merging flushed tables into one. */
module Merge {
  import opened Options
  import opened Bytes
  import opened MemTables
  import opened SSTables

  /** Takes one more entry in: the first of an id, or a strictly later one. */
  function Absorb(all: seq<Entry>, entry: Entry): seq<Entry> {
    var at := Find(all, entry.nodeId);
    if at.None? then all + [entry]
    else if entry.timestamp > all[at.value].timestamp then all[at.value := entry]
    else all
  }

  function AbsorbAll(inputs: seq<Entry>): seq<Entry> {
    if inputs == [] then [] else Absorb(AbsorbAll(inputs[..|inputs| - 1]), inputs[|inputs| - 1])
  }

  function InsertById(e: Entry, sorted: seq<Entry>): seq<Entry> {
    if sorted == [] then [e]
    else if e.nodeId < sorted[0].nodeId then [e] + sorted
    else [sorted[0]] + InsertById(e, sorted[1..])
  }

  function SortById(entries: seq<Entry>): seq<Entry> {
    if entries == [] then [] else InsertById(entries[0], SortById(entries[1..]))
  }

  function WithoutTombstones(entries: seq<Entry>): seq<Entry> {
    if entries == [] then []
    else (if entries[0].isDeleted then [] else [entries[0]]) + WithoutTombstones(entries[1..])
  }

  function Merged(inputs: seq<Entry>): seq<Entry> {
    WithoutTombstones(SortById(AbsorbAll(inputs)))
  }

  // ---------------------------------------------------------------------------------------
  // What a merge holds
  // ---------------------------------------------------------------------------------------

  /** Input i is the latest of its id, and the first of the latest. */
  predicate IsLatest(inputs: seq<Entry>, i: int) {
    && 0 <= i < |inputs|
    && forall j :: 0 <= j < |inputs| && inputs[j].nodeId == inputs[i].nodeId ==>
         inputs[j].timestamp <= inputs[i].timestamp && (j < i ==> inputs[j].timestamp < inputs[i].timestamp)
  }

  ghost predicate Latest(inputs: seq<Entry>, e: Entry) {
    exists i :: IsLatest(inputs, i) && inputs[i] == e
  }

  predicate Ascending(entries: seq<Entry>) {
    forall i, j :: 0 <= i < j < |entries| ==> entries[i].nodeId < entries[j].nodeId
  }

  /** One entry an id, each the latest of the inputs. */
  ghost predicate Summarises(all: seq<Entry>, inputs: seq<Entry>) {
    && UniqueIds(all)
    && (forall e :: e in all ==> Latest(inputs, e))
    && (forall i :: 0 <= i < |inputs| ==> Has(all, inputs[i].nodeId))
  }

  /** The latest of an id stays the latest unless a later entry of the id comes. */
  lemma StillLatest(inputs: seq<Entry>, entry: Entry, i: int)
    requires IsLatest(inputs, i) && (inputs[i].nodeId != entry.nodeId || entry.timestamp <= inputs[i].timestamp)
    ensures IsLatest(inputs + [entry], i) && (inputs + [entry])[i] == inputs[i]
  {
  }

  /** An entry later than the one kept so far is the latest. */
  lemma NewLatest(all: seq<Entry>, inputs: seq<Entry>, entry: Entry)
    requires Summarises(all, inputs)
    requires Has(all, entry.nodeId) ==> entry.timestamp > all[Find(all, entry.nodeId).value].timestamp
    ensures IsLatest(inputs + [entry], |inputs|)
  {
    forall j | 0 <= j < |inputs| && inputs[j].nodeId == entry.nodeId ensures inputs[j].timestamp < entry.timestamp {
      var was := all[Find(all, entry.nodeId).value];
      assert was in all && Latest(inputs, was);
      var w :| IsLatest(inputs, w) && inputs[w] == was;
    }
  }

  lemma KeptLatest(all: seq<Entry>, inputs: seq<Entry>, entry: Entry, e: Entry)
    requires Summarises(all, inputs) && e in all && (e.nodeId != entry.nodeId || entry.timestamp <= e.timestamp)
    ensures Latest(inputs + [entry], e)
  {
    assert Latest(inputs, e);
    var i :| IsLatest(inputs, i) && inputs[i] == e;
    StillLatest(inputs, entry, i);
  }

  lemma AbsorbedLatest(all: seq<Entry>, inputs: seq<Entry>, entry: Entry, e: Entry)
    requires Summarises(all, inputs) && e in Absorb(all, entry)
    ensures Latest(inputs + [entry], e)
  {
    hide Latest;
    var more, at := inputs + [entry], Find(all, entry.nodeId);
    if e == entry && (at.None? || entry.timestamp > all[at.value].timestamp) {
      NewLatest(all, inputs, entry);
      LatestAt(more, |inputs|);
    } else {
      AbsorbMembers(all, entry, e);
      if e != entry && e.nodeId == entry.nodeId { AbsorbKept(all, entry, e); }
      KeptLatest(all, inputs, entry, e);
    }
  }

  lemma LatestAt(inputs: seq<Entry>, i: int)
    requires IsLatest(inputs, i)
    ensures Latest(inputs, inputs[i])
  {
  }

  lemma AbsorbSummarises(all: seq<Entry>, inputs: seq<Entry>, entry: Entry)
    requires Summarises(all, inputs)
    ensures Summarises(Absorb(all, entry), inputs + [entry])
  {
    hide Absorb;
    hide Latest;
    var more, next := inputs + [entry], Absorb(all, entry);
    AbsorbUnique(all, entry);
    forall i | 0 <= i < |more| ensures Has(next, more[i].nodeId) { AbsorbIds(all, entry, more[i].nodeId); }
    forall e | e in next ensures Latest(more, e) { AbsorbedLatest(all, inputs, entry, e); }
  }

  /** Absorbing keeps one entry an id. */
  lemma AbsorbUnique(all: seq<Entry>, entry: Entry)
    requires UniqueIds(all)
    ensures UniqueIds(Absorb(all, entry))
  {
  }

  /** Absorbing adds the entry's id and loses none. */
  lemma AbsorbIds(all: seq<Entry>, entry: Entry, id: Word)
    ensures Has(Absorb(all, entry), id) <==> Has(all, id) || id == entry.nodeId
  {
    var next := Absorb(all, entry);
    if Has(all, id) { assert next[Find(all, id).value].nodeId == id; }
    if !Has(all, entry.nodeId) { assert next[|all|].nodeId == entry.nodeId; }
  }

  lemma AbsorbMembers(all: seq<Entry>, entry: Entry, e: Entry)
    requires e in Absorb(all, entry)
    ensures e == entry || e in all
  {
  }

  /** An entry of the same id that stays is at least as late. */
  lemma AbsorbKept(all: seq<Entry>, entry: Entry, e: Entry)
    requires UniqueIds(all) && e in Absorb(all, entry) && e != entry && e.nodeId == entry.nodeId
    ensures Has(all, e.nodeId) && e == all[Find(all, e.nodeId).value] && entry.timestamp <= e.timestamp
  {
    var next := Absorb(all, entry);
    var i :| 0 <= i < |next| && next[i] == e;
    FindUnique(all, e.nodeId, i);
  }

  lemma NothingSummarised(inputs: seq<Entry>)
    requires inputs == []
    ensures Summarises([], inputs)
  {
  }

  lemma {:induction false} AbsorbAllSummarises(inputs: seq<Entry>)
    ensures Summarises(AbsorbAll(inputs), inputs)
  {
    hide Absorb;
    hide Summarises;
    if inputs == [] { NothingSummarised(inputs); }
    if inputs != [] {
      var before, last := inputs[..|inputs| - 1], inputs[|inputs| - 1];
      AbsorbAllSummarises(before);
      AbsorbSummarises(AbsorbAll(before), before, last);
      assert before + [last] == inputs;
    }
  }

  /** Exactly the latest entries are kept. */
  lemma KeptExactly(all: seq<Entry>, inputs: seq<Entry>, e: Entry)
    requires Summarises(all, inputs)
    ensures e in all <==> Latest(inputs, e)
  {
    if Latest(inputs, e) {
      var i :| IsLatest(inputs, i) && inputs[i] == e;
      assert Has(all, e.nodeId);
      var kept := all[Find(all, e.nodeId).value];
      assert Latest(inputs, kept);
      var j :| IsLatest(inputs, j) && inputs[j] == kept;
      assert i == j;
    }
  }

  lemma {:induction false} InsertMembers(e: Entry, sorted: seq<Entry>, x: Entry)
    ensures x in InsertById(e, sorted) <==> x == e || x in sorted
  {
    if sorted != [] && e.nodeId >= sorted[0].nodeId {
      InsertMembers(e, sorted[1..], x);
      assert sorted == [sorted[0]] + sorted[1..];
    }
  }

  lemma {:induction false} InsertAscends(e: Entry, sorted: seq<Entry>)
    requires Ascending(sorted) && forall x :: x in sorted ==> x.nodeId != e.nodeId
    ensures Ascending(InsertById(e, sorted))
  {
    if sorted != [] && e.nodeId >= sorted[0].nodeId {
      var rest := InsertById(e, sorted[1..]);
      InsertAscends(e, sorted[1..]);
      forall i | 0 <= i < |rest| ensures sorted[0].nodeId < rest[i].nodeId {
        InsertMembers(e, sorted[1..], rest[i]);
      }
    }
  }

  lemma {:induction false} SortAscends(entries: seq<Entry>)
    requires UniqueIds(entries)
    ensures Ascending(SortById(entries))
    ensures forall x :: x in SortById(entries) <==> x in entries
  {
    if entries != [] {
      var rest := entries[1..];
      SortAscends(rest);
      assert entries == [entries[0]] + rest;
      forall x ensures x in SortById(entries) <==> x in entries {
        InsertMembers(entries[0], SortById(rest), x);
      }
      forall x | x in SortById(rest) ensures x.nodeId != entries[0].nodeId {
        var i :| 0 <= i < |rest| && rest[i] == x;
        assert entries[i + 1] == x;
      }
      InsertAscends(entries[0], SortById(rest));
    }
  }

  lemma {:induction false} FilterAscends(entries: seq<Entry>)
    requires Ascending(entries)
    ensures Ascending(WithoutTombstones(entries))
    ensures forall x :: x in WithoutTombstones(entries) <==> x in entries && !x.isDeleted
  {
    if entries != [] {
      FilterAscends(entries[1..]);
      assert entries == [entries[0]] + entries[1..];
      var rest := WithoutTombstones(entries[1..]);
      forall i | 0 <= i < |rest| ensures entries[0].nodeId < rest[i].nodeId {
        assert rest[i] in entries[1..];
      }
    }
  }

  /** A merge lists, strictly ascending by id, exactly the inputs that are the latest of their id
      (the first of equally late ones) and not tombstones. */
  lemma MergeKeepsLatest(inputs: seq<Entry>)
    ensures Ascending(Merged(inputs))
    ensures forall e :: e in Merged(inputs) <==> Latest(inputs, e) && !e.isDeleted
  {
    var all := AbsorbAll(inputs);
    AbsorbAllSummarises(inputs);
    SortAscends(all);
    FilterAscends(SortById(all));
    forall e ensures e in Merged(inputs) <==> Latest(inputs, e) && !e.isDeleted {
      KeptExactly(all, inputs, e);
    }
  }

  // ---------------------------------------------------------------------------------------
  // The order of the inputs
  // ---------------------------------------------------------------------------------------

  lemma TailMembers(a: seq<Entry>, e: Entry)
    requires Ascending(a) && a != []
    ensures e in a[1..] <==> e in a && e != a[0]
  {
    assert a == [a[0]] + a[1..];
    if e in a[1..] {
      var i :| 0 <= i < |a[1..]| && a[1..][i] == e;
      assert a[i + 1] == e;
    }
  }

  /** Members determine an ascending list. */
  lemma {:induction false} AscendingUnique(a: seq<Entry>, b: seq<Entry>)
    requires Ascending(a) && Ascending(b) && forall e :: e in a <==> e in b
    ensures a == b
  {
    assert forall i :: 0 <= i < |b| ==> b[i] in a;
    assert forall i :: 0 <= i < |a| ==> a[i] in b;
    if a != [] {
      assert a[0] == b[0];
      forall e ensures e in a[1..] <==> e in b[1..] {
        TailMembers(a, e);
        TailMembers(b, e);
      }
      AscendingUnique(a[1..], b[1..]);
    }
  }

  /** No entry of the same id is later. */
  predicate IsTop(inputs: seq<Entry>, e: Entry) {
    e in inputs && forall x :: x in inputs && x.nodeId == e.nodeId ==> x.timestamp <= e.timestamp
  }

  /** Entries tied for the latest of their id are equal, or all tombstones. */
  predicate TiesAgree(inputs: seq<Entry>) {
    forall e, f :: e in inputs && f in inputs && e.nodeId == f.nodeId && IsTop(inputs, e) && IsTop(inputs, f) ==>
      e == f || (e.isDeleted && f.isDeleted)
  }

  lemma LatestIsTop(inputs: seq<Entry>, e: Entry)
    requires Latest(inputs, e)
    ensures IsTop(inputs, e)
  {
  }

  /** An id that occurs has a latest entry. */
  lemma {:induction false} SomeLatest(inputs: seq<Entry>, e: Entry) returns (latest: Entry)
    requires e in inputs
    ensures Latest(inputs, latest) && latest.nodeId == e.nodeId
  {
    var all := AbsorbAll(inputs);
    AbsorbAllSummarises(inputs);
    var i :| 0 <= i < |inputs| && inputs[i] == e;
    latest := all[Find(all, e.nodeId).value];
  }

  /** When ties agree, the merge holds the live top entries, a matter of membership alone. */
  lemma MergeHoldsTop(inputs: seq<Entry>, e: Entry)
    requires TiesAgree(inputs)
    ensures e in Merged(inputs) <==> IsTop(inputs, e) && !e.isDeleted
  {
    MergeKeepsLatest(inputs);
    if Latest(inputs, e) { LatestIsTop(inputs, e); }
    if IsTop(inputs, e) && !e.isDeleted {
      var latest := SomeLatest(inputs, e);
      LatestIsTop(inputs, latest);
    }
  }

  lemma SameMembers(a: seq<Entry>, b: seq<Entry>)
    requires multiset(a) == multiset(b)
    ensures forall e :: e in a <==> e in b
  {
    forall e ensures e in a <==> e in b {
      assert e in a <==> e in multiset(a);
      assert e in b <==> e in multiset(b);
    }
  }

  lemma MergeIgnoresOrder(a: seq<Entry>, b: seq<Entry>)
    requires multiset(a) == multiset(b) && TiesAgree(a)
    ensures Merged(a) == Merged(b)
  {
    SameMembers(a, b);
    assert forall e :: IsTop(a, e) <==> IsTop(b, e);
    assert TiesAgree(b);
    MergeKeepsLatest(a);
    MergeKeepsLatest(b);
    forall e ensures e in Merged(a) <==> e in Merged(b) {
      MergeHoldsTop(a, e);
      MergeHoldsTop(b, e);
    }
    AscendingUnique(Merged(a), Merged(b));
  }

  function Fronted(inputs: seq<Entry>, i: nat): (r: seq<Entry>)
    requires i < |inputs|
    ensures multiset(r) == multiset(inputs)
  {
    assert inputs == inputs[..i] + [inputs[i]] + inputs[i + 1..];
    [inputs[i]] + inputs[..i] + inputs[i + 1..]
  }

  /** A top entry put first is the one that is kept. */
  lemma FrontWins(inputs: seq<Entry>, i: nat, e: Entry)
    requires i < |inputs| && IsTop(inputs, inputs[i]) && e.nodeId == inputs[i].nodeId
    ensures Latest(Fronted(inputs, i), e) <==> e == inputs[i]
  {
    var fronted := Fronted(inputs, i);
    SameMembers(inputs, fronted);
    forall j | 0 <= j < |fronted| && fronted[j].nodeId == inputs[i].nodeId
      ensures fronted[j].timestamp <= inputs[i].timestamp
    {
      assert fronted[j] in inputs;
    }
    assert IsLatest(fronted, 0);
  }

  /** The order in which inputs are merged never matters exactly when ties agree; in particular
      when each id's timestamps are distinct. */
  lemma OrderIndependentExactly(inputs: seq<Entry>)
    ensures (forall other :: multiset(other) == multiset(inputs) ==> Merged(other) == Merged(inputs))
            <==> TiesAgree(inputs)
  {
    if TiesAgree(inputs) {
      forall other | multiset(other) == multiset(inputs) ensures Merged(other) == Merged(inputs) {
        MergeIgnoresOrder(inputs, other);
      }
    } else {
      var e, f :| e in inputs && f in inputs && e.nodeId == f.nodeId && IsTop(inputs, e) && IsTop(inputs, f)
        && e != f && !(e.isDeleted && f.isDeleted);
      var i :| 0 <= i < |inputs| && inputs[i] == e;
      var j :| 0 <= j < |inputs| && inputs[j] == f;
      var a, b := Fronted(inputs, i), Fronted(inputs, j);
      MergeKeepsLatest(a);
      MergeKeepsLatest(b);
      FrontWins(inputs, i, e);
      FrontWins(inputs, i, f);
      FrontWins(inputs, j, e);
      FrontWins(inputs, j, f);
      assert Merged(a) != Merged(b);
    }
  }

  // ---------------------------------------------------------------------------------------
  // The merge
  // ---------------------------------------------------------------------------------------

  /** The inputs of the tables that could be read, one after the other. */
  function Readable(tables: seq<Option<seq<Entry>>>): seq<Entry> {
    if tables == [] then []
    else
      var last := tables[|tables| - 1];
      Readable(tables[..|tables| - 1]) + if last.Some? then last.value else []
  }

  lemma AscendingIsShort(entries: seq<Entry>)
    requires Ascending(entries)
    ensures |entries| <= 0x1_0000_0000 && UniqueIds(entries)
  {
    for i := 0 to |entries|
      invariant forall j :: 0 <= j < i ==> entries[j].nodeId >= j
    {
      if i > 0 { assert entries[i - 1].nodeId < entries[i].nodeId; }
    }
  }

  lemma AbsorbLast(inputs: seq<Entry>, last: Entry)
    ensures AbsorbAll(inputs + [last]) == Absorb(AbsorbAll(inputs), last)
  {
    assert (inputs + [last])[..|inputs|] == inputs;
  }

  method AbsorbEntry(all: seq<Entry>, entry: Entry) returns (more: seq<Entry>)
    ensures more == Absorb(all, entry)
  {
    more := all;
    var at := Find(all, entry.nodeId);
    if at.Some? {
      if entry.timestamp > all[at.value].timestamp {
        more := all[at.value := entry];
      }
    } else {
      more := all + [entry];
    }
  }

  method AbsorbEntries(all: seq<Entry>, entries: seq<Entry>, ghost before: seq<Entry>) returns (more: seq<Entry>)
    requires all == AbsorbAll(before)
    ensures more == AbsorbAll(before + entries)
  {
    hide AbsorbAll;
    more := all;
    ghost var taken := before;
    for i := 0 to |entries|
      invariant taken == before + entries[..i]
      invariant more == AbsorbAll(taken)
    {
      AbsorbLast(taken, entries[i]);
      taken := taken + [entries[i]];
      more := AbsorbEntry(more, entries[i]);
    }
    assert entries[..|entries|] == entries;
  }

  /** What the clock shows while the i-th table is read. */
  function ClockOf(clock: (int, int) -> int, i: int): int -> int {
    j => clock(i, j)
  }

  /** The files read, at the clocks of each. */
  ghost function Reads(contents: map<int, seq<Entry>>, ids: seq<int>,
                       clock: (int, int) -> int): (r: seq<Option<seq<Entry>>>)
    ensures |r| == |ids|
    ensures forall i :: 0 <= i < |r| ==> r[i] == ReadTable(contents, ids[i], ClockOf(clock, i))
  {
    seq(|ids|, i requires 0 <= i < |ids| => ReadTable(contents, ids[i], ClockOf(clock, i)))
  }

  ghost function ReadTable(contents: map<int, seq<Entry>>, id: int, clock: int -> int): Option<seq<Entry>> {
    if id in contents then Some(Restamped(contents[id], 0, clock)) else None
  }

  /** Merges tables into a new one; tables that cannot be read are skipped. Entry j of the i-th
      table is read when the clock shows clock(i, j). */
  method MergeSstables(manager: SSTableManager, ids: seq<int>, clock: (int, int) -> int)
    returns (status: Status, output: Option<int>)
    requires manager.Valid()
    modifies manager
    ensures manager.Valid()
    ensures status == if ids == [] then InvalidArgument else Ok
    ensures var merged := Merged(Readable(Reads(old(manager.contents), ids, clock)));
      && (ids == [] || merged == [] ==> manager.contents == old(manager.contents) && output == None)
      && (ids != [] && merged != [] ==>
            && output == Some(|old(manager.contents)|)
            && manager.contents == old(manager.contents)[|old(manager.contents)| := merged])
  {
    if ids == [] { return InvalidArgument, None; }
    var all: seq<Entry> := [];
    ghost var tables := Reads(manager.contents, ids, clock);
    for i := 0 to |ids|
      invariant manager.Valid() && manager.contents == old(manager.contents)
      invariant all == AbsorbAll(Readable(tables[..i]))
    {
      var entries := manager.ReadEntries(ids[i], ClockOf(clock, i));
      assert tables[..i + 1][..i] == tables[..i];
      if entries.Some? {
        all := AbsorbEntries(all, entries.value, Readable(tables[..i]));
      } else {
        assert Readable(tables[..i]) + [] == Readable(tables[..i]);
      }
    }
    assert tables[..|ids|] == tables;
    all := SortById(all);
    all := WithoutTombstones(all);
    MergeKeepsLatest(Readable(tables));
    AscendingIsShort(all);
    output := None;
    if all != [] {
      var id := manager.CreateFromEntries(all);
      output := Some(id);
    }
    status := Ok;
  }
}
