/** Flushed tables. */
module SSTables {
  // Their file format, their range and Bloom filters, and their manager.

  import opened Options
  import opened Bytes
  import opened BloomFilters
  import opened Guards
  import opened MemTables

  /** "SSTABLE1" */
  const MAGIC: seq<Byte> := [0x53, 0x53, 0x54, 0x41, 0x42, 0x4C, 0x45, 0x31]
  const FILE_HEADER_SIZE: nat := 16

  function EntryBytes(e: Entry): (r: seq<Byte>)
    ensures |r| == 9 + 4 * |e.vector|
  {
    WordBytes(e.nodeId) + WordBytes(|e.vector|) + WordsBytes(e.vector) + [if e.isDeleted then 1 else 0]
  }

  function BodyBytes(entries: seq<Entry>): seq<Byte> {
    if entries == [] then [] else EntryBytes(entries[0]) + BodyBytes(entries[1..])
  }

  /** The file of a list of entries. Timestamps are not stored. */
  function FileBytes(entries: seq<Entry>): seq<Byte>
    requires |entries| < SIZE_MODULUS
  {
    MAGIC + DoubleBytes(|entries|) + BodyBytes(entries)
  }

  // ---------------------------------------------------------------------------------------
  // Reading back
  // ---------------------------------------------------------------------------------------

  datatype Decoded = Decoded(entry: Entry, next: nat)

  /** The entry stored at an offset, with timestamp 0, and where the next one starts. */
  function DecodeEntry(file: seq<Byte>, at: nat): (d: Option<Decoded>)
    ensures d.Some? ==> at < d.value.next <= |file|
  {
    if at + 8 > |file| then None
    else
      var dim: nat := WordAt(file, at + 4);
      if at + 9 + 4 * dim > |file| then None
      else
        Some(Decoded(Entry(WordAt(file, at), WordsAt(file, at + 8, dim), 0, file[at + 8 + 4 * dim] != 0),
                     at + 9 + 4 * dim))
  }

  /** Entries are given the clock at the time of reading plus their position. */
  function Stamp(clock: int -> int, i: nat): nat {
    (clock(i) + i) % SIZE_MODULUS
  }

  function DecodeBody(file: seq<Byte>, at: nat, i: nat, n: nat, clock: int -> int): Option<seq<Entry>>
    requires i <= n
    decreases n - i
  {
    if i == n then Some([])
    else
      var d := DecodeEntry(file, at);
      if d.None? then None
      else
        var rest := DecodeBody(file, d.value.next, i + 1, n, clock);
        if rest.None? then None else Some([d.value.entry.(timestamp := Stamp(clock, i))] + rest.value)
  }

  predicate HasHeader(file: seq<Byte>) {
    |file| >= FILE_HEADER_SIZE && file[..8] == MAGIC
  }

  /** All the entries of a file; none when the header is wrong or the file ends early. */
  function ParseFile(file: seq<Byte>, clock: int -> int): Option<seq<Entry>> {
    if HasHeader(file) then DecodeBody(file, FILE_HEADER_SIZE, 0, DoubleAt(file, 8), clock) else None
  }

  /** The same entries, each stamped with the time it was read. */
  function Restamped(entries: seq<Entry>, i: nat, clock: int -> int): (r: seq<Entry>)
    ensures |r| == |entries|
  {
    if entries == [] then []
    else [entries[0].(timestamp := Stamp(clock, i))] + Restamped(entries[1..], i + 1, clock)
  }

  /** Where each field of an entry lies. */
  lemma EntryFields(rest: seq<Byte>, e: Entry)
    requires EntryBytes(e) <= rest
    ensures rest[0..4] == WordBytes(e.nodeId) && rest[4..8] == WordBytes(|e.vector|)
    ensures rest[8..8 + 4 * |e.vector|] == WordsBytes(e.vector)
    ensures rest[8 + 4 * |e.vector|] == if e.isDeleted then 1 else 0
  {
    var head, words := WordBytes(e.nodeId) + WordBytes(|e.vector|), WordsBytes(e.vector);
    var flag: seq<Byte> := [if e.isDeleted then 1 else 0];
    TakeField(rest, head + words, flag);
    TakeField(rest, head, words);
    TakeField(rest, WordBytes(e.nodeId), WordBytes(|e.vector|));
    assert rest[8 + |words|] == rest[8 + |words|..9 + |words|][0];
  }

  /** Where each field of an entry lies in the file. */
  lemma EntryFieldsAt(file: seq<Byte>, at: nat, e: Entry)
    requires at <= |file| && EntryBytes(e) <= file[at..]
    ensures at + 9 + 4 * |e.vector| <= |file|
    ensures file[at..at + 4] == WordBytes(e.nodeId) && file[at + 4..at + 8] == WordBytes(|e.vector|)
    ensures file[at + 8..at + 8 + 4 * |e.vector|] == WordsBytes(e.vector)
    ensures file[at + 8 + 4 * |e.vector|] == if e.isDeleted then 1 else 0
  {
    hide WordBytes;
    hide WordsBytes;
    var rest, n := file[at..], 4 * |e.vector|;
    EntryFields(rest, e);
    assert |rest| >= 9 + n;
    assert file[at..at + 4] == rest[0..4] && file[at + 4..at + 8] == rest[4..8];
    assert file[at + 8..at + 8 + n] == rest[8..8 + n];
    assert file[at + 8 + n] == rest[8 + n];
  }

  lemma DecodeAfterEncode(file: seq<Byte>, at: nat, e: Entry)
    requires at <= |file| && EntryBytes(e) <= file[at..]
    ensures DecodeEntry(file, at) == Some(Decoded(e.(timestamp := 0), at + |EntryBytes(e)|))
  {
    hide EntryBytes;
    hide WordBytes;
    hide WordsBytes;
    hide WordAt;
    hide WordsAt;
    EntryFieldsAt(file, at, e);
    WordRoundTrip(file, at, e.nodeId);
    WordRoundTrip(file, at + 4, |e.vector|);
    WordsRoundTrip(file, at + 8, e.vector);
  }

  lemma NextBody(file: seq<Byte>, at: nat, entries: seq<Entry>) returns (next: nat)
    requires at <= |file| && file[at..] == BodyBytes(entries) && entries != []
    ensures DecodeEntry(file, at) == Some(Decoded(entries[0].(timestamp := 0), next))
    ensures next <= |file| && file[next..] == BodyBytes(entries[1..])
  {
    DecodeAfterEncode(file, at, entries[0]);
    var size := |EntryBytes(entries[0])|;
    next := at + size;
    assert file[next..] == file[at..][size..];
  }

  lemma {:induction false} BodyRoundTrip(file: seq<Byte>, at: nat, entries: seq<Entry>, i: nat, n: nat,
                                         clock: int -> int)
    requires at <= |file| && file[at..] == BodyBytes(entries) && n == i + |entries|
    ensures DecodeBody(file, at, i, n, clock).Some?
    ensures DecodeBody(file, at, i, n, clock).value == Restamped(entries, i, clock)
    decreases |entries|
  {
    if entries != [] {
      var next := NextBody(file, at, entries);
      BodyRoundTrip(file, next, entries[1..], i + 1, n, clock);
    }
  }

  lemma HeaderRoundTrip(entries: seq<Entry>)
    requires |entries| < SIZE_MODULUS
    ensures HasHeader(FileBytes(entries)) && DoubleAt(FileBytes(entries), 8) == |entries|
    ensures FileBytes(entries)[FILE_HEADER_SIZE..] == BodyBytes(entries)
  {
    var file := FileBytes(entries);
    assert file[..16] == MAGIC + DoubleBytes(|entries|);
    TakeField(file, MAGIC, DoubleBytes(|entries|));
    DoubleRoundTrip(file, 8, |entries|);
  }

  /** A written file gives back every entry, whatever the lengths of the vectors; only the
      timestamps are new. */
  lemma FileRoundTrip(entries: seq<Entry>, clock: int -> int)
    requires |entries| < SIZE_MODULUS
    ensures ParseFile(FileBytes(entries), clock) == Some(Restamped(entries, 0, clock))
  {
    HeaderRoundTrip(entries);
    BodyRoundTrip(FileBytes(entries), FILE_HEADER_SIZE, entries, 0, |entries|, clock);
  }

  // ---------------------------------------------------------------------------------------
  // Looking one id up
  // ---------------------------------------------------------------------------------------

  /** The first entry with the id decides. */
  function ScanBody(file: seq<Byte>, at: nat, n: nat, id: Word): Option<Vec>
    decreases n
  {
    if n == 0 then None
    else
      var d := DecodeEntry(file, at);
      if d.None? then None
      else if d.value.entry.nodeId == id then (if d.value.entry.isDeleted then None else Some(d.value.entry.vector))
      else ScanBody(file, d.value.next, n - 1, id)
  }

  function ScanFile(file: seq<Byte>, id: Word): Option<Vec> {
    if HasHeader(file) then ScanBody(file, FILE_HEADER_SIZE, DoubleAt(file, 8), id) else None
  }

  /** What the first entry of an id says. */
  function FirstLookup(entries: seq<Entry>, id: Word): Option<Vec> {
    if entries == [] then None
    else if entries[0].nodeId == id then (if entries[0].isDeleted then None else Some(entries[0].vector))
    else FirstLookup(entries[1..], id)
  }

  /** The first of the entries of an id decides, a tombstone for nothing. */
  lemma {:induction false} FirstLookupExactly(entries: seq<Entry>, id: Word, i: nat)
    requires i < |entries| && entries[i].nodeId == id && forall j :: 0 <= j < i ==> entries[j].nodeId != id
    ensures FirstLookup(entries, id) == if entries[i].isDeleted then None else Some(entries[i].vector)
  {
    if i > 0 { FirstLookupExactly(entries[1..], id, i - 1); }
  }

  /** In a list that names no id twice, the first entry of an id is its only one. */
  lemma {:induction false} FirstIsOnly(entries: seq<Entry>, id: Word)
    requires UniqueIds(entries)
    ensures FirstLookup(entries, id) == Lookup(entries, id)
  {
    if entries != [] {
      LookupTail(entries, id);
      if entries[0].nodeId != id { FirstIsOnly(entries[1..], id); }
    }
  }

  lemma {:induction false} NothingToLookUp(entries: seq<Entry>, id: Word)
    requires forall i :: 0 <= i < |entries| ==> entries[i].nodeId != id
    ensures FirstLookup(entries, id) == None
  {
    if entries != [] { NothingToLookUp(entries[1..], id); }
  }

  lemma LookupTail(entries: seq<Entry>, id: Word)
    requires entries != [] && UniqueIds(entries)
    ensures UniqueIds(entries[1..])
    ensures entries[0].nodeId != id ==> Lookup(entries[1..], id) == Lookup(entries, id)
    ensures entries[0].nodeId == id ==> Find(entries, id) == Some(0)
  {
    var rest := entries[1..];
    if entries[0].nodeId == id {
      FindUnique(entries, id, 0);
    } else if Has(rest, id) {
      FindUnique(entries, id, Find(rest, id).value + 1);
    } else {
      assert forall i :: 0 < i < |entries| ==> entries[i] == rest[i - 1];
    }
  }

  lemma {:induction false} ScanAfterEncode(file: seq<Byte>, at: nat, entries: seq<Entry>, id: Word)
    requires at <= |file| && file[at..] == BodyBytes(entries)
    ensures ScanBody(file, at, |entries|, id) == FirstLookup(entries, id)
    decreases |entries|
  {
    if entries != [] {
      var next := NextBody(file, at, entries);
      if entries[0].nodeId != id {
        ScanAfterEncode(file, next, entries[1..], id);
      }
    }
  }

  /** Scanning a written file finds what the first entry of the id says. */
  lemma ScanFinds(entries: seq<Entry>, id: Word)
    requires |entries| < SIZE_MODULUS
    ensures ScanFile(FileBytes(entries), id) == FirstLookup(entries, id)
    ensures UniqueIds(entries) ==> ScanFile(FileBytes(entries), id) == Lookup(entries, id)
  {
    HeaderRoundTrip(entries);
    ScanAfterEncode(FileBytes(entries), FILE_HEADER_SIZE, entries, id);
    if UniqueIds(entries) { FirstIsOnly(entries, id); }
  }

  // ---------------------------------------------------------------------------------------
  // The filters
  // ---------------------------------------------------------------------------------------

  function Ids(entries: seq<Entry>): (r: seq<Word>)
    ensures |r| == |entries|
    ensures forall i :: 0 <= i < |r| ==> r[i] == entries[i].nodeId
  {
    seq(|entries|, i requires 0 <= i < |entries| => entries[i].nodeId)
  }

  function Least(ids: seq<Word>): Word
    requires ids != []
  {
    var last := ids[|ids| - 1];
    if |ids| == 1 then last
    else
      var least := Least(ids[..|ids| - 1]);
      if last < least then last else least
  }

  function Greatest(ids: seq<Word>): Word
    requires ids != []
  {
    var last := ids[|ids| - 1];
    if |ids| == 1 then last
    else
      var greatest := Greatest(ids[..|ids| - 1]);
      if greatest < last then last else greatest
  }

  lemma {:induction false} RangeCovers(ids: seq<Word>, i: nat)
    requires i < |ids|
    ensures Least(ids) <= ids[i] <= Greatest(ids)
  {
    if i < |ids| - 1 {
      RangeCovers(ids[..|ids| - 1], i);
    } else if |ids| > 1 {
      RangeCovers(ids[..|ids| - 1], 0);
    }
  }

  datatype Metadata = Metadata(minNodeId: Word, maxNodeId: Word, numEntries: nat, level: nat, bloom: seq<bv8>)

  function MetadataOf(entries: seq<Entry>): Metadata
    requires entries != []
  {
    Metadata(Least(Ids(entries)), Greatest(Ids(entries)), |entries|, 0, BloomOf(Ids(entries)))
  }

  predicate InRange(meta: Metadata, id: Word) {
    meta.minNodeId <= id <= meta.maxNodeId
  }

  predicate HasFilter(meta: Metadata) {
    meta.bloom == [] || |meta.bloom| == BLOOM_FILTER_BITS / 8
  }

  /** Both filters let a lookup of the id through. */
  predicate LetsThrough(meta: Metadata, id: Word)
    requires HasFilter(meta)
  {
    InRange(meta, id) && MayContain(meta.bloom, id)
  }

  predicate Passes(entries: seq<Entry>, id: Word)
    requires entries != []
  {
    LetsThrough(MetadataOf(entries), id)
  }

  /** The filters never hide a table that holds the id. */
  lemma {:induction false} RangeIsReached(ids: seq<Word>)
    requires ids != []
    ensures Least(ids) in ids && Greatest(ids) in ids
  {
    if |ids| > 1 { RangeIsReached(ids[..|ids| - 1]); }
  }

  /** Which ids a table is asked for: those between two that it holds whose three bits its ids set. */
  lemma LetsThroughExactly(entries: seq<Entry>, id: Word)
    requires entries != []
    ensures Passes(entries, id) <==>
      && (exists i :: 0 <= i < |entries| && entries[i].nodeId <= id)
      && (exists j :: 0 <= j < |entries| && id <= entries[j].nodeId)
      && forall h: nat :: IsBitOf(id, h) ==> Marked(Ids(entries), h)
  {
    var ids := Ids(entries);
    RangeIsReached(ids);
    forall i | 0 <= i < |ids| ensures Least(ids) <= ids[i] <= Greatest(ids) {
      RangeCovers(ids, i);
    }
    PassesExactly(ids, id);
    var i :| 0 <= i < |ids| && ids[i] == Least(ids);
    var j :| 0 <= j < |ids| && ids[j] == Greatest(ids);
    assert entries[i].nodeId == Least(ids) && entries[j].nodeId == Greatest(ids);
  }

  lemma FiltersHideNothing(entries: seq<Entry>, id: Word)
    requires entries != [] && Has(entries, id)
    ensures Passes(entries, id)
  {
    var at := Find(entries, id).value;
    assert Ids(entries)[at] == id;
    RangeCovers(Ids(entries), at);
    NoFalseNegatives(Ids(entries), id);
  }

  // ---------------------------------------------------------------------------------------
  // The manager
  // ---------------------------------------------------------------------------------------

  /** Gathers the range and the ids of the entries. */
  method Survey(entries: seq<Entry>) returns (least: Word, greatest: Word, ids: seq<Word>)
    requires entries != []
    ensures ids == Ids(entries) && least == Least(ids) && greatest == Greatest(ids)
  {
    ids := [entries[0].nodeId];
    least, greatest := entries[0].nodeId, entries[0].nodeId;
    for i := 1 to |entries|
      invariant ids == Ids(entries[..i]) && |ids| == i
      invariant least == Least(ids) && greatest == Greatest(ids)
    {
      var id := entries[i].nodeId;
      least := if id < least then id else least;
      greatest := if greatest < id then id else greatest;
      ghost var was := ids;
      ids := ids + [id];
      assert ids[..|ids| - 1] == was;
    }
    assert entries[..|entries|] == entries;
  }

  lemma Regroup(a: seq<Byte>, b: seq<Byte>, c: seq<Byte>)
    ensures a + (b + c) == a + b + c
  {
  }

  /** Writes the entries one after the other. */
  method WriteFile(entries: seq<Entry>) returns (file: seq<Byte>)
    requires |entries| < SIZE_MODULUS
    ensures file == FileBytes(entries)
  {
    file := MAGIC + DoubleBytes(|entries|);
    for i := 0 to |entries|
      invariant file + BodyBytes(entries[i..]) == FileBytes(entries)
    {
      assert entries[i..][1..] == entries[i + 1..];
      var e := entries[i];
      var bytes := WordBytes(e.nodeId) + WordBytes(|e.vector|) + WordsBytes(e.vector);
      bytes := bytes + [if e.isDeleted then 1 else 0];
      assert bytes == EntryBytes(e);
      Regroup(file, bytes, BodyBytes(entries[i + 1..]));
      file := file + bytes;
    }
  }

  /** Reads entries until the id turns up. */
  method ScanFor(file: seq<Byte>, id: Word) returns (vector: Option<Vec>)
    ensures vector == ScanFile(file, id)
  {
    if !HasHeader(file) { return None; }
    var numEntries: nat, at: nat := DoubleAt(file, 8), FILE_HEADER_SIZE;
    for i := 0 to numEntries
      invariant ScanBody(file, at, numEntries - i, id) == ScanFile(file, id)
    {
      var d := DecodeEntry(file, at);
      if d.None? { return None; }
      if d.value.entry.nodeId == id {
        return if d.value.entry.isDeleted then None else Some(d.value.entry.vector);
      }
      at := d.value.next;
    }
    return None;
  }

  /** Reads every entry, stamping each with the clock. */
  method ReadFile(file: seq<Byte>, clock: int -> int) returns (entries: Option<seq<Entry>>)
    ensures entries == ParseFile(file, clock)
  {
    if !HasHeader(file) { return None; }
    var numEntries: nat, at: nat, read: seq<Entry> := DoubleAt(file, 8), FILE_HEADER_SIZE, [];
    AfterNothing(DecodeBody(file, at, 0, numEntries, clock));
    for i := 0 to numEntries
      invariant ParseFile(file, clock) == After(read, DecodeBody(file, at, i, numEntries, clock))
    {
      var d := DecodeEntry(file, at);
      if d.None? { return None; }
      ghost var rest := DecodeBody(file, d.value.next, i + 1, numEntries, clock);
      AfterNext(read, d.value.entry.(timestamp := Stamp(clock, i)), rest);
      read := read + [d.value.entry.(timestamp := Stamp(clock, i))];
      at := d.value.next;
    }
    assert read + [] == read;
    return Some(read);
  }

  function After(read: seq<Entry>, rest: Option<seq<Entry>>): Option<seq<Entry>> {
    if rest.None? then None else Some(read + rest.value)
  }

  lemma AfterNothing(rest: Option<seq<Entry>>)
    ensures After([], rest) == rest
  {
    if rest.Some? { assert [] + rest.value == rest.value; }
  }

  lemma AfterNext(read: seq<Entry>, e: Entry, rest: Option<seq<Entry>>)
    ensures After(read + [e], rest) == After(read, After([e], rest))
  {
    if rest.Some? { assert read + [e] + rest.value == read + ([e] + rest.value); }
  }

  lemma Inhabited(s: set<int>)
    requires s != {}
    ensures exists k :: k in s
  {
    if forall k :: k !in s {
      assert false;
    }
  }

  /** Filters the metadata, taken in some order. */
  method Candidates(sstables: map<int, Metadata>, id: Word) returns (result: seq<int>)
    requires forall k :: k in sstables ==> HasFilter(sstables[k])
    ensures forall k :: k in result <==> k in sstables && LetsThrough(sstables[k], id)
    ensures forall i, j :: 0 <= i < j < |result| ==> result[i] != result[j]
  {
    result := [];
    var pending := sstables.Keys;
    while pending != {}
      invariant pending <= sstables.Keys
      invariant forall k :: k in result <==> k in sstables && k !in pending && LetsThrough(sstables[k], id)
      invariant forall i, j :: 0 <= i < j < |result| ==> result[i] != result[j]
      decreases |pending|
    {
      Inhabited(pending);
      var k :| k in pending;
      pending := pending - {k};
      var meta := sstables[k];
      if InRange(meta, id) {
        if MayContain(meta.bloom, id) {
          result := result + [k];
        }
      }
    }
  }

  predicate Writable(entries: seq<Entry>) {
    entries != [] && |entries| < SIZE_MODULUS
  }

  /** A table's metadata and file are those of its entries. */
  ghost predicate IsTableOf(entries: seq<Entry>, meta: Metadata, file: seq<Byte>) {
    Writable(entries) && meta == MetadataOf(entries) && file == FileBytes(entries)
  }

  /** Every table is stored as its entries say, and ids count up from 0. */
  ghost predicate Stored(contents: map<int, seq<Entry>>, sstables: map<int, Metadata>, files: map<int, seq<Byte>>) {
    && sstables.Keys == contents.Keys && files.Keys == contents.Keys
    && (forall k :: k in contents ==> k < |contents|)
    && (forall k :: k in contents ==> IsTableOf(contents[k], sstables[k], files[k]))
  }

  /** Every table is listed at level 0. */
  ghost predicate Levelled(contents: map<int, seq<Entry>>, levelMap: map<int, seq<int>>) {
    && levelMap.Keys <= {0}
    && forall k :: k in contents <==> 0 in levelMap && k in levelMap[0]
  }

  lemma StoredGrows(contents: map<int, seq<Entry>>, sstables: map<int, Metadata>, files: map<int, seq<Byte>>,
                    entries: seq<Entry>)
    requires Stored(contents, sstables, files) && Writable(entries)
    ensures |sstables| == |contents| && |contents| !in contents
    ensures Stored(contents[|contents| := entries], sstables[|contents| := MetadataOf(entries)],
                   files[|contents| := FileBytes(entries)])
  {
    assert |sstables| == |sstables.Keys| == |contents|;
    var id := |contents|;
    var more, metas := contents[id := entries], sstables[id := MetadataOf(entries)];
    var all := files[id := FileBytes(entries)];
    assert |more| == id + 1;
    assert metas.Keys == more.Keys == all.Keys;
    assert forall k :: k in more ==> k < |more|;
    forall k | k in more ensures IsTableOf(more[k], metas[k], all[k]) {
      if k != id { assert IsTableOf(contents[k], sstables[k], files[k]); }
    }
    assert Stored(more, metas, all);
  }

  lemma LevelledGrows(contents: map<int, seq<Entry>>, levelMap: map<int, seq<int>>, id: int, entries: seq<Entry>)
    requires Levelled(contents, levelMap)
    ensures Levelled(contents[id := entries], levelMap[0 := (if 0 in levelMap then levelMap[0] else []) + [id]])
  {
  }

  class SSTableManager {
    var sstables: map<int, Metadata>
    var levelMap: map<int, seq<int>>
    var files: map<int, seq<Byte>>
    /** What each table was made from. */
    ghost var contents: map<int, seq<Entry>>

    ghost predicate Valid()
      reads this
    {
      forall b {:trigger LookInside(b)} :: LookInside(b) ==>
        Stored(contents, sstables, files) && Levelled(contents, levelMap)
    }

    constructor ()
      ensures Valid() && contents == map[]
    {
      sstables, levelMap, files, contents := map[], map[], map[], map[];
    }

    /** Writes a new table and takes it into the maps. */
    method Register(entries: seq<Entry>) returns (id: int)
      requires Valid() && Writable(entries)
      modifies this
      ensures Valid()
      ensures id == |old(contents)| && id !in old(contents) && contents == old(contents)[id := entries]
    {
      hide Stored;
      hide Levelled;
      hide FileBytes;
      hide BloomOf;
      hide Least;
      hide Greatest;
      assert LookInside(true);
      id := |sstables|;
      StoredGrows(contents, sstables, files, entries);
      LevelledGrows(contents, levelMap, id, entries);
      var least, greatest, ids := Survey(entries);
      var bloom := BuildBloomFilter(ids);
      var file := WriteFile(entries);
      files := files[id := file];
      sstables := sstables[id := Metadata(least, greatest, |entries|, 0, bloom)];
      levelMap := levelMap[0 := (if 0 in levelMap then levelMap[0] else []) + [id]];
      contents := contents[id := entries];
    }

    /** Flushes a table; an empty one is refused. */
    method CreateFromMemtable(memtable: MemTable) returns (status: Status, id: int)
      requires Valid() && memtable.Valid() && |memtable.entries| < SIZE_MODULUS
      modifies this
      ensures Valid()
      ensures status == if memtable.entries == [] then InvalidArgument else Ok
      ensures status == Ok ==>
        id == |old(contents)| && id !in old(contents) && contents == old(contents)[id := memtable.entries]
      ensures status != Ok ==> contents == old(contents)
    {
      if memtable.entries == [] { return InvalidArgument, 0; }
      id := Register(memtable.entries);
      status := Ok;
    }

    /** Stores a merged list; an empty one gets id 0 and no table. */
    method CreateFromEntries(entries: seq<Entry>) returns (id: int)
      requires Valid() && |entries| < SIZE_MODULUS
      modifies this
      ensures Valid()
      ensures entries == [] ==> id == 0 && contents == old(contents)
      ensures entries != [] ==>
        id == |old(contents)| && id !in old(contents) && contents == old(contents)[id := entries]
    {
      if entries == [] { return 0; }
      id := Register(entries);
    }

    /** The tables a lookup has to read, in whatever order the hash map lists them. */
    method GetSstablesContaining(id: Word) returns (result: seq<int>)
      requires Valid()
      ensures forall k :: k in contents ==> contents[k] != []
      ensures forall k :: k in result <==> k in contents && Passes(contents[k], id)
    {
      assert LookInside(true);
      forall k | k in contents ensures HasFilter(sstables[k]) && sstables[k] == MetadataOf(contents[k]) {
        assert IsTableOf(contents[k], sstables[k], files[k]);
      }
      result := Candidates(sstables, id);
    }

    /** Scans a table's file for an id: its first entry decides. */
    method ReadVector(sstableId: int, id: Word) returns (vector: Option<Vec>)
      requires Valid()
      ensures vector == if sstableId in contents then FirstLookup(contents[sstableId], id) else None
    {
      assert LookInside(true);
      if sstableId !in sstables { return None; }
      var meta := sstables[sstableId];
      assert IsTableOf(contents[sstableId], sstables[sstableId], files[sstableId]);
      if !InRange(meta, id) {
        if Has(contents[sstableId], id) { FiltersHideNothing(contents[sstableId], id); }
        NothingToLookUp(contents[sstableId], id);
        return None;
      }
      var file := files[sstableId];
      ScanFinds(contents[sstableId], id);
      vector := ScanFor(file, id);
    }

    /** Reads a whole table back. */
    method ReadEntries(sstableId: int, clock: int -> int) returns (entries: Option<seq<Entry>>)
      requires Valid()
      ensures entries == if sstableId in contents then Some(Restamped(contents[sstableId], 0, clock)) else None
    {
      assert LookInside(true);
      if sstableId !in sstables { return None; }
      FileRoundTrip(contents[sstableId], clock);
      entries := ReadFile(files[sstableId], clock);
    }
  }
}
