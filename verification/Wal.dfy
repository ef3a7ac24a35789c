/** The write-ahead log: one 4096-byte record an operation, written at a moving offset, and its
    recovery and replay. */
module Wal {
  import opened Options
  import opened Sequences
  import opened Bytes
  import opened MemTables

  const WAL_RECORD_SIZE: nat := BLOCK_SIZE
  const WAL_HEADER_SIZE: nat := 12
  const WAL_INSERT: Word := 1
  const WAL_DELETE: Word := 2
  /** The largest vector that fits a record, and the largest that leaves room for the timestamp. */
  const MAX_LOGGED_DIMENSION: nat := 1021
  const MAX_STAMPED_DIMENSION: nat := 1019

  function Header(kind: Word, id: Word): (h: seq<Byte>)
    ensures |h| == 8
  {
    WordBytes(kind) + WordBytes(id)
  }

  /** The fields of an insert record whose vector fits; the timestamp only when there is room. */
  function InsertFields(id: Word, vector: Vec, stamp: DoubleWord): (f: seq<Byte>)
    requires |vector| <= MAX_LOGGED_DIMENSION
    ensures |f| <= WAL_RECORD_SIZE
  {
    Header(WAL_INSERT, id) + WordBytes(|vector|) + WordsBytes(vector)
    + if |vector| <= MAX_STAMPED_DIMENSION then DoubleBytes(stamp) else []
  }

  /** The record of an insert whose vector does not fit: what fits is written, and then the
      timestamp over its first eight bytes. */
  function OversizeRecord(id: Word, vector: Vec, stamp: DoubleWord): (r: seq<Byte>)
    requires |vector| > MAX_LOGGED_DIMENSION
    ensures |r| == WAL_RECORD_SIZE
  {
    var head := Header(WAL_INSERT, id) + WordBytes(|vector|);
    Splice(head + WordsBytes(vector)[..WAL_RECORD_SIZE - WAL_HEADER_SIZE], WAL_HEADER_SIZE, DoubleBytes(stamp))
  }

  function InsertRecord(id: Word, vector: Vec, stamp: DoubleWord): (r: seq<Byte>)
    ensures |r| == WAL_RECORD_SIZE
  {
    if |vector| <= MAX_LOGGED_DIMENSION then Padded(InsertFields(id, vector, stamp))
    else OversizeRecord(id, vector, stamp)
  }

  function DeleteRecord(id: Word, stamp: DoubleWord): (r: seq<Byte>)
    ensures |r| == WAL_RECORD_SIZE
  {
    Padded(Header(WAL_DELETE, id) + DoubleBytes(stamp))
  }

  // ---------------------------------------------------------------------------------------
  // Reading back
  // ---------------------------------------------------------------------------------------

  /** The entry a record stands for; unknown kinds stand for none. A vector that cannot fit the
      record comes back as zeros. */
  function ParseRecord(r: seq<Byte>): Option<Entry>
    requires |r| == WAL_RECORD_SIZE
  {
    var kind, id := WordAt(r, 0), WordAt(r, 4);
    if kind == WAL_INSERT then
      var dim := WordAt(r, 8);
      if dim <= MAX_LOGGED_DIMENSION then
        Some(Entry(id, WordsAt(r, 12, dim),
                   if dim <= MAX_STAMPED_DIMENSION then DoubleAt(r, 12 + 4 * dim) else 0, false))
      else Some(Entry(id, seq(dim, _ => 0), 0, false))
    else if kind == WAL_DELETE then Some(Entry(id, [], DoubleAt(r, 8), true))
    else None
  }

  function Listed(e: Option<Entry>): seq<Entry> {
    if e.Some? then [e.value] else []
  }

  /** The whole records of a log; a partial one at the end is ignored. */
  function Records(log: seq<Byte>): (rs: seq<seq<Byte>>)
    ensures AreRecords(rs)
  {
    if |log| < WAL_RECORD_SIZE then [] else [log[..WAL_RECORD_SIZE]] + Records(log[WAL_RECORD_SIZE..])
  }

  predicate AreRecords(rs: seq<seq<Byte>>) {
    forall i :: 0 <= i < |rs| ==> |rs[i]| == WAL_RECORD_SIZE
  }

  function ParseAll(rs: seq<seq<Byte>>): seq<Entry>
    requires AreRecords(rs)
  {
    if rs == [] then [] else Listed(ParseRecord(rs[0])) + ParseAll(rs[1..])
  }

  /** Everything a log gives back. */
  function Recovered(log: seq<Byte>): seq<Entry> {
    ParseAll(Records(log))
  }

  lemma NextRecord(log: seq<Byte>, offset: nat)
    requires offset + WAL_RECORD_SIZE <= |log|
    ensures Records(log[offset..]) == [log[offset..offset + WAL_RECORD_SIZE]] + Records(log[offset + WAL_RECORD_SIZE..])
  {
    var rest := log[offset..];
    assert rest[..WAL_RECORD_SIZE] == log[offset..offset + WAL_RECORD_SIZE];
    assert rest[WAL_RECORD_SIZE..] == log[offset + WAL_RECORD_SIZE..];
  }

  lemma RecoveredNext(log: seq<Byte>, offset: nat)
    requires offset + WAL_RECORD_SIZE <= |log|
    ensures Recovered(log[offset..])
         == Listed(ParseRecord(log[offset..offset + WAL_RECORD_SIZE])) + Recovered(log[offset + WAL_RECORD_SIZE..])
  {
    NextRecord(log, offset);
    var first, others := log[offset..offset + WAL_RECORD_SIZE], Records(log[offset + WAL_RECORD_SIZE..]);
    assert ([first] + others)[1..] == others;
  }

  lemma NothingRecovered(log: seq<Byte>)
    requires |log| < WAL_RECORD_SIZE
    ensures Recovered(log) == []
  {
  }

  datatype Op = InsertOp(id: Word, vector: Vec) | DeleteOp(id: Word)

  function RecordOf(op: Op, stamp: DoubleWord): (r: seq<Byte>)
    ensures |r| == WAL_RECORD_SIZE
  {
    match op
    case InsertOp(id, vector) => InsertRecord(id, vector, stamp)
    case DeleteOp(id) => DeleteRecord(id, stamp)
  }

  /** The operation an entry stands for. */
  function OpOf(e: Entry): Op {
    if e.isDeleted then DeleteOp(e.nodeId) else InsertOp(e.nodeId, e.vector)
  }

  predicate IsZero(vector: Vec) {
    forall i :: 0 <= i < |vector| ==> vector[i] == 0
  }

  predicate Loggable(op: Op) {
    op.InsertOp? ==> |op.vector| <= MAX_LOGGED_DIMENSION
  }

  lemma HeadOf(r: seq<Byte>, id: Word, vector: Vec)
    requires |r| == WAL_RECORD_SIZE && r[..12] == Header(WAL_INSERT, id) + WordBytes(|vector|)
    ensures WordAt(r, 0) == WAL_INSERT && WordAt(r, 4) == id && WordAt(r, 8) == |vector|
  {
    TakeField(r, Header(WAL_INSERT, id), WordBytes(|vector|));
    TakeField(r, WordBytes(WAL_INSERT), WordBytes(id));
    WordRoundTrip(r, 0, WAL_INSERT);
    WordRoundTrip(r, 4, id);
    WordRoundTrip(r, 8, |vector|);
  }

  /** Where each field of a record lies, in bytes: kind, id, length, vector, and the timestamp when there is room. */
  lemma InsertRecordFields(id: Word, vector: Vec, stamp: DoubleWord)
    requires |vector| <= 1021
    ensures var r := InsertRecord(id, vector, stamp);
      && |r| == 4096 && WordAt(r, 0) == 1 && WordAt(r, 4) == id && WordAt(r, 8) == |vector|
      && WordsAt(r, 12, |vector|) == vector
      && (|vector| <= 1019 ==> DoubleAt(r, 12 + 4 * |vector|) == stamp)
      && forall i :: 12 + 4 * |vector| + (if |vector| <= 1019 then 8 else 0) <= i < 4096 ==> r[i] == 0
  {
    hide WordBytes;
    hide DoubleBytes;
    hide WordsAt;
    hide WordAt;
    hide WordsBytes;
    var r := InsertRecord(id, vector, stamp);
    var head := Header(WAL_INSERT, id) + WordBytes(|vector|);
    if |vector| <= MAX_STAMPED_DIMENSION {
      TakeField(r, head + WordsBytes(vector), DoubleBytes(stamp));
      DoubleRoundTrip(r, 12 + 4 * |vector|, stamp);
    }
    TakeField(r, head, WordsBytes(vector));
    HeadOf(r, id, vector);
    WordsRoundTrip(r, 12, vector);
  }

  lemma DeleteRecordFields(id: Word, stamp: DoubleWord)
    ensures var r := DeleteRecord(id, stamp);
      && |r| == 4096 && WordAt(r, 0) == 2 && WordAt(r, 4) == id && DoubleAt(r, 8) == stamp
      && forall i :: 16 <= i < 4096 ==> r[i] == 0
  {
    var r := DeleteRecord(id, stamp);
    TakeField(r, Header(WAL_DELETE, id), DoubleBytes(stamp));
    TakeField(r, WordBytes(WAL_DELETE), WordBytes(id));
    WordRoundTrip(r, 0, WAL_DELETE);
    WordRoundTrip(r, 4, id);
    DoubleRoundTrip(r, 8, stamp);
  }

  lemma ParseDelete(id: Word, stamp: DoubleWord)
    ensures ParseRecord(DeleteRecord(id, stamp)) == Some(Entry(id, [], stamp, true))
  {
    DeleteRecordFields(id, stamp);
  }

  lemma ParseFittingInsert(id: Word, vector: Vec, stamp: DoubleWord)
    requires |vector| <= MAX_LOGGED_DIMENSION
    ensures ParseRecord(InsertRecord(id, vector, stamp))
         == Some(Entry(id, vector, if |vector| <= MAX_STAMPED_DIMENSION then stamp else 0, false))
  {
    InsertRecordFields(id, vector, stamp);
  }

  /** A vector that does not fit is cut at the end of the record, and the timestamp written over its first eight
      bytes. */
  lemma OversizeRecordFields(id: Word, vector: Vec, stamp: DoubleWord)
    requires |vector| > 1021
    ensures var r := InsertRecord(id, vector, stamp);
      && |r| == 4096 && WordAt(r, 0) == 1 && WordAt(r, 4) == id && WordAt(r, 8) == |vector|
      && DoubleAt(r, 12) == stamp && r[20..] == WordsBytes(vector)[8..4084]
  {
    hide WordsBytes;
    var r := InsertRecord(id, vector, stamp);
    assert r[..12] == Header(WAL_INSERT, id) + WordBytes(|vector|);
    HeadOf(r, id, vector);
    assert r[12..20] == DoubleBytes(stamp);
    DoubleRoundTrip(r, 12, stamp);
    assert r[20..] == WordsBytes(vector)[8..4084];
  }

  lemma ParseOversizeInsert(id: Word, vector: Vec, stamp: DoubleWord)
    requires |vector| > MAX_LOGGED_DIMENSION
    ensures ParseRecord(InsertRecord(id, vector, stamp)) == Some(Entry(id, seq(|vector|, _ => 0), 0, false))
  {
    var r := InsertRecord(id, vector, stamp);
    assert r[..12] == Header(WAL_INSERT, id) + WordBytes(|vector|);
    HeadOf(r, id, vector);
  }

  /** A logged operation is read back exactly when its vector fits the record or is all zeros. */
  lemma RecordRoundTrip(op: Op, stamp: DoubleWord)
    ensures ParseRecord(RecordOf(op, stamp)).Some?
    ensures OpOf(ParseRecord(RecordOf(op, stamp)).value) == op <==> Loggable(op) || IsZero(op.vector)
  {
    match op
    case DeleteOp(id) => ParseDelete(id, stamp);
    case InsertOp(id, vector) =>
      if |vector| <= MAX_LOGGED_DIMENSION {
        ParseFittingInsert(id, vector, stamp);
      } else {
        ParseOversizeInsert(id, vector, stamp);
        assert IsZero(vector) ==> vector == seq(|vector|, _ => 0);
      }
  }

  // ---------------------------------------------------------------------------------------
  // Whole logs
  // ---------------------------------------------------------------------------------------

  datatype Logged = Logged(op: Op, stamp: DoubleWord)

  function RecordsOf(ops: seq<Logged>): (rs: seq<seq<Byte>>)
    ensures |rs| == |ops| && AreRecords(rs)
    ensures forall i :: 0 <= i < |rs| ==> rs[i] == RecordOf(ops[i].op, ops[i].stamp)
  {
    seq(|ops|, i requires 0 <= i < |ops| => RecordOf(ops[i].op, ops[i].stamp))
  }

  function Concat(rs: seq<seq<Byte>>): (log: seq<Byte>)
    requires AreRecords(rs)
    ensures |log| == WAL_RECORD_SIZE * |rs|
  {
    if rs == [] then [] else rs[0] + Concat(rs[1..])
  }

  /** The bytes of a log of operations. */
  function LogOf(ops: seq<Logged>): (log: seq<Byte>)
    ensures |log| == WAL_RECORD_SIZE * |ops|
  {
    Concat(RecordsOf(ops))
  }

  predicate AllLoggable(ops: seq<Logged>) {
    forall i :: 0 <= i < |ops| ==> Loggable(ops[i].op)
  }

  function OpsOf(entries: seq<Entry>): (r: seq<Op>)
    ensures |r| == |entries|
    ensures forall i :: 0 <= i < |r| ==> r[i] == OpOf(entries[i])
  {
    seq(|entries|, i requires 0 <= i < |entries| => OpOf(entries[i]))
  }

  function PlainOps(ops: seq<Logged>): (r: seq<Op>)
    ensures |r| == |ops|
    ensures forall i :: 0 <= i < |r| ==> r[i] == ops[i].op
  {
    seq(|ops|, i requires 0 <= i < |ops| => ops[i].op)
  }

  lemma {:induction false} ConcatGrows(rs: seq<seq<Byte>>, r: seq<Byte>)
    requires AreRecords(rs) && |r| == WAL_RECORD_SIZE
    ensures Concat(rs + [r]) == Concat(rs) + r
  {
    if rs == [] {
      assert Concat([r]) == r + Concat([]);
    } else {
      ConcatGrows(rs[1..], r);
      assert (rs + [r])[1..] == rs[1..] + [r];
    }
  }

  /** Logging one more operation appends its record. */
  lemma LogGrows(ops: seq<Logged>, last: Logged)
    ensures LogOf(ops + [last]) == LogOf(ops) + RecordOf(last.op, last.stamp)
  {
    ConcatGrows(RecordsOf(ops), RecordOf(last.op, last.stamp));
    assert RecordsOf(ops + [last]) == RecordsOf(ops) + [RecordOf(last.op, last.stamp)];
  }

  /** Cutting a log anywhere leaves its first whole records. */
  lemma {:induction false} CutRecords(rs: seq<seq<Byte>>, length: nat, n: nat)
    requires AreRecords(rs) && n <= |rs| && length <= |Concat(rs)|
    requires WAL_RECORD_SIZE * n <= length < WAL_RECORD_SIZE * n + WAL_RECORD_SIZE
    ensures Records(Concat(rs)[..length]) == rs[..n]
  {
    if n > 0 {
      CutRecords(rs[1..], length - WAL_RECORD_SIZE, n - 1);
      var log := Concat(rs)[..length];
      assert log[..WAL_RECORD_SIZE] == rs[0];
      assert log[WAL_RECORD_SIZE..] == Concat(rs[1..])[..length - WAL_RECORD_SIZE];
      assert rs[..n] == [rs[0]] + rs[1..][..n - 1];
    }
  }

  lemma OpsOfListed(e: Entry, rest: seq<Entry>)
    ensures OpsOf([e] + rest) == [OpOf(e)] + OpsOf(rest)
  {
  }

  lemma {:induction false} ParseAllOps(ops: seq<Logged>)
    requires AllLoggable(ops)
    ensures OpsOf(ParseAll(RecordsOf(ops))) == PlainOps(ops)
  {
    if ops != [] {
      ParseAllOps(ops[1..]);
      var first := RecordOf(ops[0].op, ops[0].stamp);
      RecordRoundTrip(ops[0].op, ops[0].stamp);
      assert RecordsOf(ops)[1..] == RecordsOf(ops[1..]);
      OpsOfListed(ParseRecord(first).value, ParseAll(RecordsOf(ops[1..])));
      assert PlainOps(ops) == [ops[0].op] + PlainOps(ops[1..]);
    }
  }

  /** Any byte prefix of a log, cut anywhere, gives back exactly the operations whose records are
      whole: the first length / 4096 of them. */
  lemma PrefixRecovers(ops: seq<Logged>, length: nat)
    requires AllLoggable(ops) && length <= |LogOf(ops)|
    ensures length / WAL_RECORD_SIZE <= |ops|
    ensures OpsOf(Recovered(LogOf(ops)[..length])) == PlainOps(ops[..length / WAL_RECORD_SIZE])
  {
    var n := length / WAL_RECORD_SIZE;
    CutRecords(RecordsOf(ops), length, n);
    assert RecordsOf(ops)[..n] == RecordsOf(ops[..n]);
    ParseAllOps(ops[..n]);
  }

  /** The whole log gives back every operation. */
  lemma LogRecovers(ops: seq<Logged>)
    requires AllLoggable(ops)
    ensures OpsOf(Recovered(LogOf(ops))) == PlainOps(ops)
  {
    PrefixRecovers(ops, WAL_RECORD_SIZE * |ops|);
    assert LogOf(ops)[..WAL_RECORD_SIZE * |ops|] == LogOf(ops);
    assert ops[..|ops|] == ops;
  }

  // ---------------------------------------------------------------------------------------
  // The log object
  // ---------------------------------------------------------------------------------------

  class WalManager {
    var file: seq<Byte>
    var currentSize: nat

    constructor ()
      ensures file == [] && currentSize == 0
    {
      file, currentSize := [], 0;
    }

    method LogInsert(id: Word, vector: Vec, now: DoubleWord)
      modifies this
      ensures file == old(file) + InsertRecord(id, vector, now)
      ensures currentSize == old(currentSize) + WAL_RECORD_SIZE
    {
      var buffer := BuildInsert(id, vector, now);
      file := file + buffer;
      currentSize := currentSize + WAL_RECORD_SIZE;
    }

    /** Fills a zeroed buffer field by field, at a moving offset. */
    static method BuildInsert(id: Word, vector: Vec, now: DoubleWord) returns (buffer: seq<Byte>)
      ensures buffer == InsertRecord(id, vector, now)
    {
      buffer := Zeros(WAL_RECORD_SIZE);
      assert buffer == Padded([]);
      PutAppends([], WordBytes(WAL_INSERT));
      buffer := Splice(buffer, 0, WordBytes(WAL_INSERT));
      PutAppends(WordBytes(WAL_INSERT), WordBytes(id));
      buffer := Splice(buffer, 4, WordBytes(id));
      PutAppends(Header(WAL_INSERT, id), WordBytes(|vector|));
      buffer := Splice(buffer, 8, WordBytes(|vector|));
      ghost var head := Header(WAL_INSERT, id) + WordBytes(|vector|);
      assert buffer == Padded(head);
      var offset, bytes := WAL_HEADER_SIZE, WordsBytes(vector);
      if offset + |bytes| <= WAL_RECORD_SIZE {
        PutAppends(head, bytes);
        buffer := Splice(buffer, offset, bytes);
        offset := offset + |bytes|;
        if offset + 8 <= WAL_RECORD_SIZE {
          PutAppends(head + bytes, DoubleBytes(now));
          buffer := Splice(buffer, offset, DoubleBytes(now));
        } else {
          assert InsertFields(id, vector, now) == head + bytes;
        }
      } else {
        buffer := Splice(buffer, offset, bytes[..WAL_RECORD_SIZE - offset]);
        assert buffer == head + bytes[..WAL_RECORD_SIZE - offset];
        buffer := Splice(buffer, offset, DoubleBytes(now));
      }
    }

    method LogDelete(id: Word, now: DoubleWord)
      modifies this
      ensures file == old(file) + DeleteRecord(id, now)
      ensures currentSize == old(currentSize) + WAL_RECORD_SIZE
    {
      var buffer: seq<Byte> := Zeros(WAL_RECORD_SIZE);
      assert buffer == Padded([]);
      PutAppends([], WordBytes(WAL_DELETE));
      buffer := Splice(buffer, 0, WordBytes(WAL_DELETE));
      PutAppends(WordBytes(WAL_DELETE), WordBytes(id));
      buffer := Splice(buffer, 4, WordBytes(id));
      PutAppends(Header(WAL_DELETE, id), DoubleBytes(now));
      buffer := Splice(buffer, 8, DoubleBytes(now));
      file := file + buffer;
      currentSize := currentSize + WAL_RECORD_SIZE;
    }

    /** Reads whole records until one is short. */
    method Recover() returns (entries: seq<Entry>)
      ensures entries == Recovered(file)
    {
      hide Recovered;
      hide ParseRecord;
      entries := [];
      var offset := 0;
      assert file[0..] == file;
      while offset + WAL_RECORD_SIZE <= |file|
        invariant offset <= |file|
        invariant entries + Recovered(file[offset..]) == Recovered(file)
        decreases |file| - offset
      {
        RecoveredNext(file, offset);
        var entry := ParseRecord(file[offset..offset + WAL_RECORD_SIZE]);
        if entry.Some? {
          entries := entries + [entry.value];
        }
        offset := offset + WAL_RECORD_SIZE;
      }
      NothingRecovered(file[offset..]);
    }

    method Clear()
      modifies this
      ensures file == [] && currentSize == 0
    {
      file, currentSize := [], 0;
    }
  }
}
