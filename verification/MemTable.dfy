/** The in-memory table of recent writes: entries in order of arrival, an index by id, and a size
    counter that wraps. */
module MemTables {
  import opened Options
  import opened Bytes

  type Vec = v: seq<Word> | |v| < 0x1_0000_0000

  datatype Entry = Entry(nodeId: Word, vector: Vec, timestamp: nat, isDeleted: bool)

  datatype Status = Ok | InvalidArgument | MemoryLimitExceeded

  /** Sizes are 64-bit unsigned: additions and subtractions wrap. */
  const SIZE_MODULUS: nat := 0x1_0000_0000_0000_0000
  const ENTRY_SIZE: nat := 48
  const DEFAULT_MEMTABLE_SIZE: nat := 10 * 1024 * 1024
  const DEFAULT_MAX_ENTRIES: nat := 100000

  function Plus(a: nat, b: nat): nat {
    (a + b) % SIZE_MODULUS
  }

  function Minus(a: nat, b: nat): nat {
    (a + SIZE_MODULUS - b % SIZE_MODULUS) % SIZE_MODULUS
  }

  datatype Config = Config(maxSize: nat, maxEntries: nat)

  datatype Table = Table(entries: seq<Entry>, currentSize: nat, immutable: bool, config: Config)

  function Empty(config: Config): Table {
    Table([], 0, false, config)
  }

  function DefaultConfig(): Config {
    Config(DEFAULT_MEMTABLE_SIZE, DEFAULT_MAX_ENTRIES)
  }

  /** The position of an id, if it has an entry. */
  function Find(entries: seq<Entry>, id: Word): (at: Option<nat>)
    ensures at.Some? ==> at.value < |entries| && entries[at.value].nodeId == id
    ensures at.None? ==> forall i :: 0 <= i < |entries| ==> entries[i].nodeId != id
  {
    if entries == [] then None
    else if entries[|entries| - 1].nodeId == id then Some(|entries| - 1)
    else Find(entries[..|entries| - 1], id)
  }

  /** No id has two entries. */
  predicate UniqueIds(entries: seq<Entry>) {
    forall i, j :: 0 <= i < j < |entries| ==> entries[i].nodeId != entries[j].nodeId
  }

  lemma FindUnique(entries: seq<Entry>, id: Word, i: nat)
    requires UniqueIds(entries) && i < |entries| && entries[i].nodeId == id
    ensures Find(entries, id) == Some(i)
  {
  }

  function SizeOf(vector: Vec): nat {
    ENTRY_SIZE + 4 * |vector|
  }

  /** Inserting or overwriting; refused when the table is immutable or full, even for an id it
      already holds. */
  function Insert(t: Table, id: Word, vector: Vec, now: nat): (Table, Status) {
    if t.immutable then (t, InvalidArgument)
    else if |t.entries| >= t.config.maxEntries then (t, MemoryLimitExceeded)
    else if Plus(t.currentSize, SizeOf(vector)) > t.config.maxSize then (t, MemoryLimitExceeded)
    else
      var at := Find(t.entries, id);
      if at.Some? then
        var entry := t.entries[at.value];
        (t.(entries := t.entries[at.value := entry.(vector := vector, timestamp := now, isDeleted := false)],
            currentSize := Plus(Minus(t.currentSize, SizeOf(entry.vector)), SizeOf(vector))), Ok)
      else
        (t.(entries := t.entries + [Entry(id, vector, now, false)],
            currentSize := Plus(t.currentSize, SizeOf(vector))), Ok)
  }

  /** Deleting leaves a tombstone, whether or not the id was there; its size is not counted. */
  function Delete(t: Table, id: Word, now: nat): (Table, Status) {
    if t.immutable then (t, InvalidArgument)
    else
      var at := Find(t.entries, id);
      if at.Some? then (t.(entries := t.entries[at.value := t.entries[at.value].(isDeleted := true)]), Ok)
      else (t.(entries := t.entries + [Entry(id, [], now, true)]), Ok)
  }

  /** What a list of entries says about an id: its vector, unless it is absent or deleted. */
  function Lookup(entries: seq<Entry>, id: Word): Option<Vec> {
    var at := Find(entries, id);
    if at.Some? && !entries[at.value].isDeleted then Some(entries[at.value].vector) else None
  }

  function Get(t: Table, id: Word): Option<Vec> {
    Lookup(t.entries, id)
  }

  predicate IsFull(t: Table) {
    t.currentSize >= t.config.maxSize || |t.entries| >= t.config.maxEntries
  }

  predicate Has(entries: seq<Entry>, id: Word) {
    Find(entries, id).Some?
  }

  // ---------------------------------------------------------------------------------------
  // When writes are accepted, and what they leave
  // ---------------------------------------------------------------------------------------

  /** The entry of an id is put in the place of the one it has, or at the end. */
  predicate Puts(before: seq<Entry>, after: seq<Entry>, at: nat, entry: Entry) {
    if at < |before| then before[at].nodeId == entry.nodeId && after == before[at := entry]
    else at == |before| && (forall e :: e in before ==> e.nodeId != entry.nodeId) && after == before + [entry]
  }

  /** The bytes an entry in that place counts for: 48 and four a coordinate; none if there is none. */
  function BytesAt(entries: seq<Entry>, at: nat): nat {
    if at < |entries| then 48 + 4 * |entries[at].vector| else 0
  }

  /** An insert is accepted exactly when the table is mutable, holds fewer entries than it may, and the size
      counter, which wraps, stays within its limit, even if the id is there already; refused, it changes nothing.
      Accepted, it writes a live entry, and the counter goes from the old entry's bytes to the new one's. */
  lemma InsertExactly(t: Table, id: Word, vector: Vec, now: nat)
    ensures var (r, status) := Insert(t, id, vector, now);
      && (status == Ok <==>
            && !t.immutable && |t.entries| < t.config.maxEntries
            && (t.currentSize + 48 + 4 * |vector|) % 0x1_0000_0000_0000_0000 <= t.config.maxSize)
      && (t.immutable ==> status == InvalidArgument)
      && (!t.immutable && status != Ok ==> status == MemoryLimitExceeded)
      && (status != Ok ==> r == t)
      && r.config == t.config && r.immutable == t.immutable
      && (status == Ok ==>
            exists at: nat ::
              && Puts(t.entries, r.entries, at, Entry(id, vector, now, false))
              && r.currentSize < 0x1_0000_0000_0000_0000
              && (r.currentSize + BytesAt(t.entries, at)) % 0x1_0000_0000_0000_0000
                 == (t.currentSize + 48 + 4 * |vector|) % 0x1_0000_0000_0000_0000)
  {
    var r := Insert(t, id, vector, now).0;
    if Insert(t, id, vector, now).1 == Ok {
      var at := if Has(t.entries, id) then Find(t.entries, id).value else |t.entries|;
      SizeFollows(t.currentSize, BytesAt(t.entries, at), SizeOf(vector));
      assert Puts(t.entries, r.entries, at, Entry(id, vector, now, false));
    }
  }

  /** Taking away and adding on a counter that wraps. */
  lemma SizeFollows(size: nat, removed: nat, added: nat)
    ensures (Plus(Minus(size, removed), added) + removed) % SIZE_MODULUS == (size + added) % SIZE_MODULUS
  {
  }

  /** What a delete puts in a place: the entry there, marked, or a new one without a vector. */
  function Tombstone(entries: seq<Entry>, at: nat, id: Word, now: nat): Entry {
    if at < |entries| then Entry(id, entries[at].vector, entries[at].timestamp, true) else Entry(id, [], now, true)
  }

  /** A delete is accepted exactly when the table is mutable, full or not. It marks the entry the id has, or puts
      a tombstone without a vector at the end; the size counter stays. */
  lemma DeleteExactly(t: Table, id: Word, now: nat)
    ensures var (r, status) := Delete(t, id, now);
      && status == (if t.immutable then InvalidArgument else Ok)
      && (status != Ok ==> r == t)
      && r == t.(entries := r.entries)
      && (status == Ok ==>
            exists at: nat :: Puts(t.entries, r.entries, at, Tombstone(t.entries, at, id, now)))
  {
    if !t.immutable {
      var at := if Has(t.entries, id) then Find(t.entries, id).value else |t.entries|;
      assert Puts(t.entries, Delete(t, id, now).0.entries, at, Tombstone(t.entries, at, id, now));
    }
  }

  // ---------------------------------------------------------------------------------------
  // A table is a map
  // ---------------------------------------------------------------------------------------

  /** An accepted insert changes exactly one id. */
  lemma InsertThenGet(t: Table, id: Word, vector: Vec, now: nat, other: Word)
    requires UniqueIds(t.entries) && Insert(t, id, vector, now).1 == Ok
    ensures UniqueIds(Insert(t, id, vector, now).0.entries)
    ensures Get(Insert(t, id, vector, now).0, other) == if other == id then Some(vector) else Get(t, other)
    ensures Has(Insert(t, id, vector, now).0.entries, other) <==> other == id || Has(t.entries, other)
  {
    var before, after := t.entries, Insert(t, id, vector, now).0.entries;
    ChangedOne(before, after, id, other);
  }

  lemma DeleteThenGet(t: Table, id: Word, now: nat, other: Word)
    requires UniqueIds(t.entries) && !t.immutable
    ensures Delete(t, id, now).1 == Ok && UniqueIds(Delete(t, id, now).0.entries)
    ensures Get(Delete(t, id, now).0, other) == if other == id then None else Get(t, other)
    ensures Has(Delete(t, id, now).0.entries, other) <==> other == id || Has(t.entries, other)
  {
    var before, after := t.entries, Delete(t, id, now).0.entries;
    ChangedOne(before, after, id, other);
  }

  /** Two lists that differ in the entry of one id agree on every other id. */
  lemma ChangedOne(before: seq<Entry>, after: seq<Entry>, id: Word, other: Word)
    requires UniqueIds(before)
    requires |after| == |before| + if Has(before, id) then 0 else 1
    requires forall i :: 0 <= i < |before| ==>
      after[i].nodeId == before[i].nodeId && (before[i].nodeId != id ==> after[i] == before[i])
    requires !Has(before, id) ==> after[|before|].nodeId == id
    ensures UniqueIds(after)
    ensures Has(after, other) <==> other == id || Has(before, other)
    ensures other != id && Has(before, other) ==>
      Has(after, other) && after[Find(after, other).value] == before[Find(before, other).value]
    ensures Has(after, id) && Find(after, id).value == if Has(before, id) then Find(before, id).value else |before|
  {
    var at := if Has(before, id) then Find(before, id).value else |before|;
    assert after[at].nodeId == id;
    FindUnique(after, id, at);
    if other != id && Has(before, other) {
      FindUnique(after, other, Find(before, other).value);
    }
  }

  /** The index holds the position of every entry, and nothing else. */
  ghost predicate Indexed(entries: seq<Entry>, index: map<Word, nat>) {
    && UniqueIds(entries)
    && (forall i :: 0 <= i < |entries| ==> entries[i].nodeId in index && index[entries[i].nodeId] == i)
    && (forall id :: id in index ==> index[id] < |entries| && entries[index[id]].nodeId == id)
  }

  lemma IndexAppends(entries: seq<Entry>, index: map<Word, nat>, entry: Entry)
    requires Indexed(entries, index) && entry.nodeId !in index
    ensures Indexed(entries + [entry], index[entry.nodeId := |entries|])
  {
  }

  lemma IndexReplaces(entries: seq<Entry>, index: map<Word, nat>, at: nat, entry: Entry)
    requires Indexed(entries, index) && at < |entries| && entries[at].nodeId == entry.nodeId
    ensures Indexed(entries[at := entry], index)
  {
  }

  // ---------------------------------------------------------------------------------------
  // The table object
  // ---------------------------------------------------------------------------------------

  class MemTable {
    const config: Config
    var entries: seq<Entry>
    var index: map<Word, nat>
    var currentSize: nat
    var immutable: bool

    ghost predicate Valid()
      reads this
    {
      Indexed(entries, index)
    }

    function State(): Table
      reads this
    {
      Table(entries, currentSize, immutable, config)
    }

    lemma IndexFinds(id: Word)
      requires Valid()
      ensures id in index ==> Find(entries, id) == Some(index[id])
      ensures id !in index ==> Find(entries, id) == None
    {
      if id in index { FindUnique(entries, id, index[id]); }
    }

    constructor (config: Config)
      ensures Valid() && State() == Empty(config)
    {
      this.config := config;
      entries, index, currentSize, immutable := [], map[], 0, false;
    }

    method InsertVector(id: Word, vector: Vec, now: nat) returns (status: Status)
      requires Valid()
      modifies this
      ensures Valid() && (State(), status) == Insert(old(State()), id, vector, now)
    {
      if immutable { return InvalidArgument; }
      if |entries| >= config.maxEntries { return MemoryLimitExceeded; }
      var entrySize := SizeOf(vector);
      if Plus(currentSize, entrySize) > config.maxSize { return MemoryLimitExceeded; }
      IndexFinds(id);
      if id in index {
        var at := index[id];
        var entry := entries[at];
        currentSize := Minus(currentSize, SizeOf(entry.vector));
        IndexReplaces(entries, index, at, entry.(vector := vector, timestamp := now, isDeleted := false));
        entries := entries[at := entry.(vector := vector, timestamp := now, isDeleted := false)];
        currentSize := Plus(currentSize, entrySize);
      } else {
        var at := |entries|;
        IndexAppends(entries, index, Entry(id, vector, now, false));
        entries := entries + [Entry(id, vector, now, false)];
        index := index[id := at];
        currentSize := Plus(currentSize, entrySize);
      }
      return Ok;
    }

    method DeleteEntry(id: Word, now: nat) returns (status: Status)
      requires Valid()
      modifies this
      ensures Valid() && (State(), status) == Delete(old(State()), id, now)
    {
      if immutable { return InvalidArgument; }
      IndexFinds(id);
      if id !in index {
        var at := |entries|;
        IndexAppends(entries, index, Entry(id, [], now, true));
        entries := entries + [Entry(id, [], now, true)];
        index := index[id := at];
      } else {
        IndexReplaces(entries, index, index[id], entries[index[id]].(isDeleted := true));
        entries := entries[index[id] := entries[index[id]].(isDeleted := true)];
      }
      return Ok;
    }

    method GetVector(id: Word) returns (vector: Option<Vec>)
      requires Valid()
      ensures vector == Get(State(), id)
    {
      IndexFinds(id);
      if id !in index { return None; }
      var entry := entries[index[id]];
      if entry.isDeleted { return None; }
      return Some(entry.vector);
    }

    method MarkImmutable()
      modifies this`immutable
      ensures State() == old(State()).(immutable := true)
    {
      immutable := true;
    }
  }
}
