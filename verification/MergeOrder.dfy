/** Which write a merge keeps. */
module MergeOrder {
  // Files hold no timestamps: a merge ranks the entries of an id by when it reads them, not by when they
  // were written.

  import opened Options
  import opened Bytes
  import opened MemTables
  import opened SSTables
  import opened Merge

  /** What a list holds for an id. */
  function EntryOf(entries: seq<Entry>, id: Word): Option<Entry> {
    var at := Find(entries, id);
    if at.Some? then Some(entries[at.value]) else None
  }

  /** The later of two entries; the first of equally late ones. */
  function Later(a: Option<Entry>, b: Option<Entry>): Option<Entry> {
    if a.None? then b
    else if b.None? || b.value.timestamp <= a.value.timestamp then a
    else b
  }

  lemma AbsorbAt(all: seq<Entry>, e: Entry, id: Word)
    requires UniqueIds(all)
    ensures EntryOf(Absorb(all, e), id) == Later(EntryOf(all, id), if e.nodeId == id then Some(e) else None)
  {
    var at, next := Find(all, e.nodeId), Absorb(all, e);
    AbsorbUnique(all, e);
    if at.None? {
      assert next[..|next| - 1] == all;
    } else if id == e.nodeId {
      FindUnique(next, id, at.value);
    } else if Has(all, id) {
      FindUnique(next, id, Find(all, id).value);
    } else {
      assert forall i :: 0 <= i < |next| ==> next[i].nodeId == all[i].nodeId;
    }
  }

  lemma {:induction false} AbsorbAllUnique(inputs: seq<Entry>)
    ensures UniqueIds(AbsorbAll(inputs))
  {
    if inputs != [] {
      AbsorbAllUnique(inputs[..|inputs| - 1]);
      AbsorbUnique(AbsorbAll(inputs[..|inputs| - 1]), inputs[|inputs| - 1]);
    }
  }

  lemma LastEntry(table: seq<Entry>, id: Word)
    requires table != [] && UniqueIds(table)
    ensures UniqueIds(table[..|table| - 1])
    ensures EntryOf(table, id)
         == if table[|table| - 1].nodeId == id then Some(table[|table| - 1]) else EntryOf(table[..|table| - 1], id)
    ensures table[|table| - 1].nodeId == id ==> EntryOf(table[..|table| - 1], id) == None
  {
  }

  /** Absorbing a whole table leaves, for each id, the later of what was there and what the table holds. */
  lemma {:induction false} AbsorbTable(before: seq<Entry>, table: seq<Entry>, id: Word)
    requires UniqueIds(table)
    ensures EntryOf(AbsorbAll(before + table), id) == Later(EntryOf(AbsorbAll(before), id), EntryOf(table, id))
  {
    hide AbsorbAll;
    if table == [] {
      assert before + table == before;
    } else {
      var rest, last := table[..|table| - 1], table[|table| - 1];
      LastEntry(table, id);
      AbsorbTable(before, rest, id);
      assert before + table == (before + rest) + [last];
      AbsorbLast(before + rest, last);
      AbsorbAllUnique(before + rest);
      AbsorbAt(AbsorbAll(before + rest), last, id);
    }
  }

  // ---------------------------------------------------------------------------------------
  // The table that wins
  // ---------------------------------------------------------------------------------------

  predicate HoldsAt(tables: seq<Option<seq<Entry>>>, i: int, id: Word) {
    0 <= i < |tables| && tables[i].Some? && Has(tables[i].value, id)
  }

  function StampAt(tables: seq<Option<seq<Entry>>>, i: int, id: Word): nat
    requires HoldsAt(tables, i, id)
  {
    tables[i].value[Find(tables[i].value, id).value].timestamp
  }

  /** No other table's entry of the id is later, and none listed before is as late. */
  ghost predicate Wins(tables: seq<Option<seq<Entry>>>, w: int, id: Word) {
    && HoldsAt(tables, w, id)
    && forall i :: HoldsAt(tables, i, id) ==>
         StampAt(tables, i, id) <= StampAt(tables, w, id) && (i < w ==> StampAt(tables, i, id) < StampAt(tables, w, id))
  }

  predicate TablesUnique(tables: seq<Option<seq<Entry>>>) {
    forall i :: 0 <= i < |tables| && tables[i].Some? ==> UniqueIds(tables[i].value)
  }

  lemma PrefixHolds(tables: seq<Option<seq<Entry>>>, i: int, id: Word)
    requires tables != [] && i < |tables| - 1
    ensures HoldsAt(tables[..|tables| - 1], i, id) <==> HoldsAt(tables, i, id)
    ensures HoldsAt(tables, i, id) ==> StampAt(tables[..|tables| - 1], i, id) == StampAt(tables, i, id)
  {
  }

  /** Of the tables that hold an id, one wins. */
  lemma {:induction false} SomeWins(tables: seq<Option<seq<Entry>>>, id: Word, holder: int) returns (w: int)
    requires HoldsAt(tables, holder, id)
    ensures Wins(tables, w, id)
  {
    var last := |tables| - 1;
    forall i | i < last ensures HoldsAt(tables[..last], i, id) <==> HoldsAt(tables, i, id)
    {
      PrefixHolds(tables, i, id);
    }
    if i :| 0 <= i < last && HoldsAt(tables[..last], i, id) {
      w := SomeWins(tables[..last], id, i);
      forall j | j < last && HoldsAt(tables, j, id) ensures StampAt(tables[..last], j, id) == StampAt(tables, j, id) {
        PrefixHolds(tables, j, id);
      }
      if HoldsAt(tables, last, id) && StampAt(tables, last, id) > StampAt(tables, w, id) { w := last; }
    } else {
      w := last;
      assert forall i :: HoldsAt(tables, i, id) ==> i == last;
    }
  }

  lemma {:induction false} NoneHolds(tables: seq<Option<seq<Entry>>>, id: Word)
    requires TablesUnique(tables) && forall i :: !HoldsAt(tables, i, id)
    ensures EntryOf(AbsorbAll(Readable(tables)), id) == None
  {
    if tables != [] {
      var last := |tables| - 1;
      forall i ensures !HoldsAt(tables[..last], i, id) { if i < last { PrefixHolds(tables, i, id); } }
      NoneHolds(tables[..last], id);
      AbsorbNextTable(tables, id);
      assert !HoldsAt(tables, last, id);
    }
  }

  /** What the last table adds. */
  lemma AbsorbNextTable(tables: seq<Option<seq<Entry>>>, id: Word)
    requires tables != [] && TablesUnique(tables)
    ensures TablesUnique(tables[..|tables| - 1])
    ensures var before, last := EntryOf(AbsorbAll(Readable(tables[..|tables| - 1])), id), tables[|tables| - 1];
      EntryOf(AbsorbAll(Readable(tables)), id) == if last.Some? then Later(before, EntryOf(last.value, id)) else before
  {
    hide AbsorbAll;
    var before, last := Readable(tables[..|tables| - 1]), tables[|tables| - 1];
    if last.Some? { AbsorbTable(before, last.value, id); } else { assert before + [] == before; }
  }

  /** The merge keeps the winner's entry. */
  lemma {:induction false} WinnerIsKept(tables: seq<Option<seq<Entry>>>, id: Word, w: int)
    requires TablesUnique(tables) && Wins(tables, w, id)
    ensures EntryOf(AbsorbAll(Readable(tables)), id) == EntryOf(tables[w].value, id)
  {
    hide AbsorbAll;
    hide Readable;
    var last := |tables| - 1;
    var before := tables[..last];
    AbsorbNextTable(tables, id);
    forall i | i < last
      ensures HoldsAt(before, i, id) <==> HoldsAt(tables, i, id)
      ensures HoldsAt(tables, i, id) ==> StampAt(before, i, id) == StampAt(tables, i, id)
    {
      PrefixHolds(tables, i, id);
    }
    if w < last {
      assert Wins(before, w, id);
      WinnerIsKept(before, id, w);
      assert HoldsAt(tables, last, id) ==> StampAt(tables, last, id) <= StampAt(tables, w, id);
    } else if i :| HoldsAt(before, i, id) {
      var v := SomeWins(before, id, i);
      WinnerIsKept(before, id, v);
      assert HoldsAt(tables, v, id);
    } else {
      NoneHolds(before, id);
    }
  }

  // ---------------------------------------------------------------------------------------
  // What a read of the merged table finds
  // ---------------------------------------------------------------------------------------

  function Alive(e: Option<Entry>): Option<Vec> {
    if e.Some? && !e.value.isDeleted then Some(e.value.vector) else None
  }

  lemma MergedLookup(inputs: seq<Entry>, id: Word)
    ensures Lookup(Merged(inputs), id) == Alive(EntryOf(AbsorbAll(inputs), id))
  {
    var all, merged := AbsorbAll(inputs), Merged(inputs);
    AbsorbAllUnique(inputs);
    SortAscends(all);
    FilterAscends(SortById(all));
    assert forall x :: x in merged <==> x in all && !x.isDeleted;
    forall x | x in all && x.nodeId == id && !x.isDeleted ensures Has(merged, id) {
      assert x in merged;
    }
    if Has(merged, id) {
      var e := merged[Find(merged, id).value];
      assert e in merged;
      var i :| 0 <= i < |all| && all[i] == e;
      FindUnique(all, id, i);
    }
  }

  /** The i-th table listed for a merge holds the id. */
  predicate Listed(contents: map<int, seq<Entry>>, ids: seq<int>, i: int, id: Word) {
    0 <= i < |ids| && ids[i] in contents && Has(contents[ids[i]], id)
  }

  /** The stamp the entry of the id gets when the i-th table is read: the clock then, plus its position. */
  function ReadTime(contents: map<int, seq<Entry>>, ids: seq<int>, clock: (int, int) -> int, i: int, id: Word): nat
    requires Listed(contents, ids, i, id)
  {
    var at := Find(contents[ids[i]], id).value;
    (clock(i, at) + at) % SIZE_MODULUS
  }

  /** The entry of the id in the w-th table gets the greatest stamp, and none before it as great a one. */
  ghost predicate ReadLast(contents: map<int, seq<Entry>>, ids: seq<int>, clock: (int, int) -> int, w: int, id: Word) {
    && Listed(contents, ids, w, id)
    && forall i :: Listed(contents, ids, i, id) ==>
         && ReadTime(contents, ids, clock, i, id) <= ReadTime(contents, ids, clock, w, id)
         && (i < w ==> ReadTime(contents, ids, clock, i, id) < ReadTime(contents, ids, clock, w, id))
  }

  predicate ContentsUnique(contents: map<int, seq<Entry>>) {
    forall k :: k in contents ==> UniqueIds(contents[k])
  }

  lemma {:induction false} RestampedAt(entries: seq<Entry>, i: nat, clock: int -> int, j: nat)
    requires j < |entries|
    ensures Restamped(entries, i, clock)[j] == entries[j].(timestamp := Stamp(clock, i + j))
  {
    if j > 0 { RestampedAt(entries[1..], i + 1, clock, j - 1); }
  }

  /** Restamping moves no entry. */
  lemma RestampedFind(entries: seq<Entry>, clock: int -> int, id: Word)
    requires UniqueIds(entries)
    ensures UniqueIds(Restamped(entries, 0, clock))
    ensures Find(Restamped(entries, 0, clock), id) == Find(entries, id)
    ensures Has(entries, id) ==>
      var at := Find(entries, id).value;
      Restamped(entries, 0, clock)[at] == entries[at].(timestamp := Stamp(clock, at))
    ensures Lookup(Restamped(entries, 0, clock), id) == Lookup(entries, id)
  {
    hide Restamped;
    var r := Restamped(entries, 0, clock);
    forall j | 0 <= j < |entries| ensures r[j] == entries[j].(timestamp := Stamp(clock, j)) {
      RestampedAt(entries, 0, clock, j);
    }
    if Has(entries, id) { FindUnique(r, id, Find(entries, id).value); }
  }

  lemma ReadAt(contents: map<int, seq<Entry>>, ids: seq<int>, clock: (int, int) -> int, i: int, id: Word)
    requires ContentsUnique(contents)
    ensures HoldsAt(Reads(contents, ids, clock), i, id) <==> Listed(contents, ids, i, id)
    ensures Listed(contents, ids, i, id) ==>
      && StampAt(Reads(contents, ids, clock), i, id) == ReadTime(contents, ids, clock, i, id)
      && Alive(EntryOf(Reads(contents, ids, clock)[i].value, id)) == Lookup(contents[ids[i]], id)
  {
    if 0 <= i < |ids| && ids[i] in contents {
      var k := ids[i];
      assert UniqueIds(contents[k]);
      RestampedFind(contents[k], ClockOf(clock, i), id);
    }
  }

  lemma ReadsUnique(contents: map<int, seq<Entry>>, ids: seq<int>, clock: (int, int) -> int)
    requires ContentsUnique(contents)
    ensures TablesUnique(Reads(contents, ids, clock))
  {
    var tables := Reads(contents, ids, clock);
    forall i | 0 <= i < |tables| && tables[i].Some? ensures UniqueIds(tables[i].value) {
      var k := ids[i];
      assert k in contents && UniqueIds(contents[k]);
      RestampedFind(contents[k], ClockOf(clock, i), 0);
    }
  }

  lemma WinsIsReadLast(contents: map<int, seq<Entry>>, ids: seq<int>, clock: (int, int) -> int, w: int, id: Word)
    requires ContentsUnique(contents)
    ensures Wins(Reads(contents, ids, clock), w, id) <==> ReadLast(contents, ids, clock, w, id)
  {
    hide EntryOf;
    forall i
      ensures HoldsAt(Reads(contents, ids, clock), i, id) <==> Listed(contents, ids, i, id)
      ensures Listed(contents, ids, i, id) ==>
        StampAt(Reads(contents, ids, clock), i, id) == ReadTime(contents, ids, clock, i, id)
    {
      ReadAt(contents, ids, clock, i, id);
    }
  }

  /** A read of the merged table finds what the table read last says of the id, its tombstone included. */
  lemma MergeAnswers(contents: map<int, seq<Entry>>, ids: seq<int>, clock: (int, int) -> int, w: int, id: Word)
    requires ContentsUnique(contents) && ReadLast(contents, ids, clock, w, id)
    ensures Lookup(Merged(Readable(Reads(contents, ids, clock))), id) == Lookup(contents[ids[w]], id)
  {
    hide Merged;
    hide Readable;
    hide AbsorbAll;
    var tables := Reads(contents, ids, clock);
    WinsIsReadLast(contents, ids, clock, w, id);
    ReadsUnique(contents, ids, clock);
    WinnerIsKept(tables, id, w);
    MergedLookup(Readable(tables), id);
    ReadAt(contents, ids, clock, w, id);
  }

  /** A read of the merged table finds what any one of the listed tables says, the one with the newest write
      for instance, exactly when the table read last says the same. Which table has the newest write is not
      told by ids alone: flushed tables get ids that count up, but a merge of old tables gets a greater id than
      newer tables it left out. */
  lemma NewestKeptExactly(contents: map<int, seq<Entry>>, ids: seq<int>, clock: (int, int) -> int,
                        newest: int, id: Word)
    requires ContentsUnique(contents) && Listed(contents, ids, newest, id)
    ensures Lookup(Merged(Readable(Reads(contents, ids, clock))), id) == Lookup(contents[ids[newest]], id)
       <==> forall w :: ReadLast(contents, ids, clock, w, id) ==>
              Lookup(contents[ids[w]], id) == Lookup(contents[ids[newest]], id)
  {
    hide Merged;
    hide Readable;
    ReadAt(contents, ids, clock, newest, id);
    var v := SomeWins(Reads(contents, ids, clock), id, newest);
    WinsIsReadLast(contents, ids, clock, v, id);
    forall w | ReadLast(contents, ids, clock, w, id)
      ensures Lookup(Merged(Readable(Reads(contents, ids, clock))), id) == Lookup(contents[ids[w]], id)
    {
      MergeAnswers(contents, ids, clock, w, id);
    }
  }

  /** Tables listed later are read later. */
  ghost predicate ClockAdvances(contents: map<int, seq<Entry>>, ids: seq<int>, clock: (int, int) -> int, id: Word) {
    forall i, j :: i < j && Listed(contents, ids, i, id) && Listed(contents, ids, j, id) ==>
      ReadTime(contents, ids, clock, i, id) < ReadTime(contents, ids, clock, j, id)
  }

  /** With a clock that advances from table to table, the last table listed that holds the id is the one whose
      entry is kept: the order of the list decides, not the age of the write. */
  lemma ListOrderDecides(contents: map<int, seq<Entry>>, ids: seq<int>, clock: (int, int) -> int, w: int, id: Word)
    requires ClockAdvances(contents, ids, clock, id) && Listed(contents, ids, w, id)
    ensures ReadLast(contents, ids, clock, w, id) <==> forall i :: w < i ==> !Listed(contents, ids, i, id)
  {
    if forall i :: w < i ==> !Listed(contents, ids, i, id) {
      assert forall i :: Listed(contents, ids, i, id) ==> i <= w;
    }
  }

  /** The order in which tables are listed for a merge: that of their creation. */
  predicate IdsAscend(ids: seq<int>) {
    forall i, j :: 0 <= i < j < |ids| ==> ids[i] < ids[j]
  }

  /** Listed in order of creation, the table with the greatest id is read last exactly when its entry gets a
      greater stamp than every other. */
  lemma GreatestIdReadLast(contents: map<int, seq<Entry>>, ids: seq<int>, clock: (int, int) -> int, w: int, id: Word)
    requires IdsAscend(ids) && Listed(contents, ids, w, id)
    requires forall i :: Listed(contents, ids, i, id) ==> ids[i] <= ids[w]
    ensures ReadLast(contents, ids, clock, w, id) <==>
      forall i :: Listed(contents, ids, i, id) && i != w ==>
        ReadTime(contents, ids, clock, i, id) < ReadTime(contents, ids, clock, w, id)
  {
    assert forall i :: Listed(contents, ids, i, id) ==> i <= w;
  }

  /** Listed in order of creation, with a clock that advances from table to table, a read of the merged table
      finds what the table with the greatest id says. */
  lemma GreatestIdKept(contents: map<int, seq<Entry>>, ids: seq<int>, clock: (int, int) -> int, w: int, id: Word)
    requires ContentsUnique(contents) && IdsAscend(ids) && ClockAdvances(contents, ids, clock, id)
    requires Listed(contents, ids, w, id) && forall i :: Listed(contents, ids, i, id) ==> ids[i] <= ids[w]
    ensures Lookup(Merged(Readable(Reads(contents, ids, clock))), id) == Lookup(contents[ids[w]], id)
  {
    assert forall i :: Listed(contents, ids, i, id) ==> i <= w;
    ListOrderDecides(contents, ids, clock, w, id);
    MergeAnswers(contents, ids, clock, w, id);
  }

  /** Stamps are clock readings plus positions: when the clock does not tick between two reads, an entry at the
      back of an older table outranks one at the front of a newer table. Listed in order of creation, a merge
      then brings a deleted vector back. */
  lemma DeletedVectorReturnsCounterexample(vector: Vec, id: Word, other: Word, tick: int)
    requires id != other && 0 <= tick < SIZE_MODULUS - 1
    ensures var older, newer := [Entry(other, [], 0, false), Entry(id, vector, 0, false)], [Entry(id, [], 0, true)];
      && Lookup(newer, id) == None
      && Lookup(Merged(Readable(Reads(map[0 := older, 1 := newer], [0, 1], (i, j) => tick))), id) == Some(vector)
  {
    var older, newer := [Entry(other, [], 0, false), Entry(id, vector, 0, false)], [Entry(id, [], 0, true)];
    var contents, clock := map[0 := older, 1 := newer], (i: int, j: int) => tick;
    assert Find(contents[0], id) == Some(1) && Find(contents[1], id) == Some(0);
    assert ReadTime(contents, [0, 1], clock, 0, id) == tick + 1 && ReadTime(contents, [0, 1], clock, 1, id) == tick;
    assert ReadLast(contents, [0, 1], clock, 0, id);
    MergeAnswers(contents, [0, 1], clock, 0, id);
  }

  /** The table a merge makes of two, and what it says of an id that only the first holds. */
  lemma MergedPair(contents: map<int, seq<Entry>>, clock: (int, int) -> int, id: Word)
    requires ContentsUnique(contents) && 0 in contents && 1 in contents
    requires Has(contents[0], id) && !Has(contents[1], id)
    ensures var merged := Merged(Readable(Reads(contents, [0, 1], clock)));
      UniqueIds(merged) && |merged| < SIZE_MODULUS - 1 && Lookup(merged, id) == Lookup(contents[0], id)
  {
    var merged := Merged(Readable(Reads(contents, [0, 1], clock)));
    MergeKeepsLatest(Readable(Reads(contents, [0, 1], clock)));
    AscendingIsShort(merged);
    assert Listed(contents, [0, 1], 0, id) && !Listed(contents, [0, 1], 1, id);
    assert ReadLast(contents, [0, 1], clock, 0, id);
    MergeAnswers(contents, [0, 1], clock, 0, id);
  }

  /** A merge of the two oldest of three tables, which gets the next id, merged later with the third in order of
      creation: an older value replaces the newest one although the clock advances. Here table 0 holds the older
      value, table 2 the newest one, and table 3 is the merge of 0 and 1. */
  lemma RemergeCounterexample(older: Vec, newest: Vec, id: Word, other: Word)
    requires id != other
    ensures var a, b, c := [Entry(id, older, 0, false)], [Entry(other, [], 0, false)], [Entry(id, newest, 0, false)];
      var clock := (i: int, j: int) => i;
      var first := Merged(Readable(Reads(map[0 := a, 1 := b, 2 := c], [0, 1], clock)));
      && ContentsUnique(map[2 := c, 3 := first])
      && ClockAdvances(map[2 := c, 3 := first], [2, 3], clock, id)
      && Lookup(Merged(Readable(Reads(map[2 := c, 3 := first], [2, 3], clock))), id) == Some(older)
  {
    var a, b, c := [Entry(id, older, 0, false)], [Entry(other, [], 0, false)], [Entry(id, newest, 0, false)];
    var clock := (i: int, j: int) => i;
    var three := map[0 := a, 1 := b, 2 := c];
    MergedPair(three, clock, id);
    var first := Merged(Readable(Reads(three, [0, 1], clock)));
    RemergedPair(c, first, id, clock);
  }

  lemma RemergedPair(c: seq<Entry>, first: seq<Entry>, id: Word, clock: (int, int) -> int)
    requires |c| == 1 && c[0].nodeId == id && UniqueIds(first) && Has(first, id)
    requires |first| < SIZE_MODULUS - 1
    requires forall i: int, j: int :: clock(i, j) == i
    ensures var two := map[2 := c, 3 := first];
      && ContentsUnique(two) && ClockAdvances(two, [2, 3], clock, id)
      && Lookup(Merged(Readable(Reads(two, [2, 3], clock))), id) == Lookup(first, id)
  {
    var two := map[2 := c, 3 := first];
    assert Find(c, id) == Some(0);
    var at := Find(first, id).value;
    assert Listed(two, [2, 3], 0, id) && Listed(two, [2, 3], 1, id);
    assert ReadTime(two, [2, 3], clock, 0, id) == 0 && ReadTime(two, [2, 3], clock, 1, id) == 1 + at;
    GreatestIdKept(two, [2, 3], clock, 1, id);
  }
}
