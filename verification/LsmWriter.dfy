/** The logged, rotated and flushed write path. */
module LsmWriters {
  import opened Options
  import opened Bytes
  import opened MemTables
  import opened SSTables
  import opened Wal

  /** Flushed tables are given by their entries; their ids count up from 0. */
  datatype Lsm = Lsm(active: Table, immutables: seq<Table>, flushed: map<int, seq<Entry>>, log: seq<Byte>)

  function Init(config: Config): Lsm {
    Lsm(Empty(config), [], map[], [])
  }

  /** The active table joins those waiting. The new one has the default configuration, whatever the
      first one had. */
  function Retire(s: Lsm): Lsm {
    s.(active := Empty(DefaultConfig()), immutables := s.immutables + [s.active.(immutable := true)])
  }

  /** Flushes the table that has waited longest, unless it is empty, and clears the log. */
  function FlushOldest(s: Lsm): (Lsm, Status)
    requires s.immutables != []
  {
    var oldest := s.immutables[0].entries;
    if oldest == [] then (s, InvalidArgument)
    else (Lsm(s.active, s.immutables[1..], s.flushed[|s.flushed| := oldest], []), Ok)
  }

  function Rotate(s: Lsm): (Lsm, Status) {
    FlushOldest(Retire(s))
  }

  /** Logs first, then inserts; what the table refuses stays in the log. */
  function InsertWithId(s: Lsm, id: Word, vector: Vec, stamp: DoubleWord, now: nat): (Lsm, Status) {
    var logged := s.(log := s.log + InsertRecord(id, vector, stamp));
    var (table, status) := Insert(s.active, id, vector, now);
    if status != Ok then (logged, status)
    else if IsFull(table) then Rotate(logged.(active := table))
    else (logged.(active := table), Ok)
  }

  function DeleteEntry(s: Lsm, id: Word, stamp: DoubleWord, now: nat): (Lsm, Status) {
    var (table, status) := Delete(s.active, id, now);
    (s.(log := s.log + DeleteRecord(id, stamp), active := table), status)
  }

  /** The answer of the first retired table that has one. */
  function FirstAnswer(tables: seq<Table>, id: Word): Option<Vec> {
    if tables == [] then None
    else if Get(tables[0], id).Some? then Get(tables[0], id)
    else FirstAnswer(tables[1..], id)
  }

  /** Whether a flushed table passes the filters and gives the answer. */
  predicate Answers(flushed: map<int, seq<Entry>>, k: int, id: Word, answer: Option<Vec>) {
    k in flushed && flushed[k] != [] && Passes(flushed[k], id) && Lookup(flushed[k], id) == answer
  }

  /** What a read may return: flushed tables are visited in hash-map order, so any of those that
      answer may answer first. */
  ghost predicate MayReturn(s: Lsm, id: Word, r: Option<Vec>) {
    if Get(s.active, id).Some? then r == Get(s.active, id)
    else if FirstAnswer(s.immutables, id).Some? then r == FirstAnswer(s.immutables, id)
    else if r.Some? then exists k :: Answers(s.flushed, k, id, r)
    else forall k, answer :: Answers(s.flushed, k, id, answer) ==> answer == None
  }

  // ---------------------------------------------------------------------------------------
  // Runs
  // ---------------------------------------------------------------------------------------

  datatype Command = Write(op: Op) | Flush

  /** A command, and what the clocks read while it runs. */
  datatype Call = Call(command: Command, stamp: DoubleWord, now: nat)

  function Apply(t: Table, op: Op, now: nat): (Table, Status) {
    match op
    case InsertOp(id, vector) => Insert(t, id, vector, now)
    case DeleteOp(id) => Delete(t, id, now)
  }

  function Step(s: Lsm, c: Call): (Lsm, Status) {
    match c.command
    case Write(InsertOp(id, vector)) => InsertWithId(s, id, vector, c.stamp, c.now)
    case Write(DeleteOp(id)) => DeleteEntry(s, id, c.stamp, c.now)
    case Flush => Rotate(s)
  }

  function Run(s: Lsm, calls: seq<Call>): Lsm {
    if calls == [] then s else Step(Run(s, calls[..|calls| - 1]), calls[|calls| - 1]).0
  }

  /** The write that a call makes, if the active table takes it. */
  function Accepted(s: Lsm, c: Call): (ops: seq<Op>)
    ensures |ops| <= 1
  {
    if c.command.Write? && Apply(s.active, c.command.op, c.now).1 == Ok then [c.command.op] else []
  }

  /** The writes accepted in a run, in order. */
  function History(s: Lsm, calls: seq<Call>): seq<Op> {
    if calls == [] then []
    else
      var before := calls[..|calls| - 1];
      History(s, before) + Accepted(Run(s, before), calls[|calls| - 1])
  }

  /** What the last write to an id left there: the reference a read is held to. */
  function Latest(history: seq<Op>, id: Word): Option<Vec> {
    if history == [] then None
    else
      var last := history[|history| - 1];
      if last.id != id then Latest(history[..|history| - 1], id)
      else if last.InsertOp? then Some(last.vector) else None
  }

  ghost predicate HeldByFlushed(s: Lsm, id: Word) {
    exists k :: k in s.flushed && Has(s.flushed[k], id)
  }

  /** Flushes are not empty. */
  predicate FlushesSomething(s: Lsm, c: Call) {
    c.command.Flush? ==> s.active.entries != []
  }

  /** An accepted write is to an id no flushed table holds: all its writes fall in one generation. */
  ghost predicate Confined(s: Lsm, c: Call) {
    Accepted(s, c) != [] ==> !HeldByFlushed(s, c.command.op.id)
  }

  ghost predicate Proper(s: Lsm, calls: seq<Call>) {
    calls != [] ==>
      var before, last := calls[..|calls| - 1], calls[|calls| - 1];
      Proper(s, before) && FlushesSomething(Run(s, before), last) && Confined(Run(s, before), last)
  }

  /** The table waiting to be flushed is empty. */
  predicate Jammed(s: Lsm) {
    s.immutables != [] && s.immutables[0].entries == []
  }

  /** The active table takes writes, every flushed table holds something, no table names an id twice, and if
      anything is waiting, the store is jammed. */
  ghost predicate Kept(s: Lsm) {
    && (s.immutables != [] ==> Jammed(s)) && !s.active.immutable && UniqueIds(s.active.entries)
    && (forall k :: k in s.flushed ==> k < |s.flushed|)
    && (forall k :: k in s.flushed ==> s.flushed[k] != [] && UniqueIds(s.flushed[k]))
  }

  /** No rotation has failed: nothing is waiting. */
  ghost predicate Sound(s: Lsm) {
    s.immutables == [] && Kept(s)
  }

  lemma AcceptedKeeps(s: Lsm, op: Op, now: nat)
    requires Kept(s)
    ensures Kept(s.(active := Apply(s.active, op, now).0))
    ensures Apply(s.active, op, now).1 == Ok ==> Apply(s.active, op, now).0.entries != []
    ensures Apply(s.active, op, now).1 != Ok ==> Apply(s.active, op, now).0 == s.active
  {
    match op
    case InsertOp(id, vector) =>
      if Insert(s.active, id, vector, now).1 == Ok { InsertThenGet(s.active, id, vector, now, id); }
    case DeleteOp(id) => DeleteThenGet(s.active, id, now, id);
  }

  lemma RotateKeepsSound(s: Lsm)
    requires Sound(s) && s.active.entries != []
    ensures Sound(Rotate(s).0) && Rotate(s).1 == Ok
    ensures Rotate(s).0 == Lsm(Empty(DefaultConfig()), [], s.flushed[|s.flushed| := s.active.entries], [])
    ensures |s.flushed| !in s.flushed
  {
    var more := s.flushed[|s.flushed| := s.active.entries];
    assert |more| == |s.flushed| + 1;
  }

  /** The state a write leaves, before any rotation. */
  function Written(s: Lsm, op: Op, stamp: DoubleWord, now: nat): Lsm {
    s.(log := s.log + RecordOf(op, stamp), active := Apply(s.active, op, now).0)
  }

  /** A write either stops there or goes on to rotate a table that is not empty. */
  lemma WriteCases(s: Lsm, c: Call)
    requires Kept(s) && c.command.Write?
    ensures var w := Written(s, c.command.op, c.stamp, c.now);
      Kept(w) && w.immutables == s.immutables &&
      (Step(s, c).0 == w || (Step(s, c) == Rotate(w) && w.active.entries != []))
  {
    AcceptedKeeps(s, c.command.op, c.now);
  }

  /** A table starts over: 10 MiB and 100000 entries, whatever the first configuration. */
  predicate IsNewTable(t: Table) {
    t == Table([], 0, false, Config(10 * 1024 * 1024, 100000))
  }

  /** A rotation always starts a new active table, and puts the old one, closed, behind those that wait. The first of
      them is flushed under the count of flushed tables and the log cleared, unless it is empty. */
  lemma RotateExactly(s: Lsm)
    ensures var (t, status) := Rotate(s);
      var waiting := s.immutables + [Table(s.active.entries, s.active.currentSize, true, s.active.config)];
      && IsNewTable(t.active)
      && (status == Ok <==> waiting[0].entries != [])
      && (status == Ok ==>
            t.immutables == waiting[1..] && t.log == []
            && t.flushed == s.flushed[|s.flushed| := waiting[0].entries])
      && (status != Ok ==>
            status == InvalidArgument && t.immutables == waiting && t.log == s.log && t.flushed == s.flushed)
  {
  }

  /** The table has reached its number of entries or its size. */
  predicate IsFilled(t: Table) {
    |t.entries| >= t.config.maxEntries || t.currentSize >= t.config.maxSize
  }

  /** In any state, jammed or not: a rotation follows exactly the inserts that the table takes and that fill it. */
  lemma FilledTableRotates(s: Lsm, id: Word, vector: Vec, stamp: DoubleWord, now: nat)
    ensures var (filled, taken) := Insert(s.active, id, vector, now);
      var logged := s.(active := filled, log := s.log + InsertRecord(id, vector, stamp));
      InsertWithId(s, id, vector, stamp, now)
        == if taken == Ok && IsFilled(filled) then Rotate(logged) else (logged, taken)
  {
    InsertExactly(s.active, id, vector, now);
  }

  /** An insert into a store where no rotation has failed: it is logged, whether or not the table takes it; when it
      fills the table, that is the newest flushed one, and the log is empty; otherwise nothing is flushed. */
  lemma InsertWithIdExactly(s: Lsm, id: Word, vector: Vec, stamp: DoubleWord, now: nat)
    requires Sound(s)
    ensures var (t, status) := InsertWithId(s, id, vector, stamp, now);
      var (filled, taken) := Insert(s.active, id, vector, now);
      && status == taken && t.immutables == []
      && (if taken == Ok && IsFilled(filled) then
            && IsNewTable(t.active) && t.log == [] && filled.entries != []
            && |s.flushed| !in s.flushed && t.flushed == s.flushed[|s.flushed| := filled.entries]
          else
            && t.active == (if taken == Ok then filled else s.active)
            && t.flushed == s.flushed && t.log == s.log + InsertRecord(id, vector, stamp))
  {
    AcceptedKeeps(s, InsertOp(id, vector), now);
    var logged := s.(log := s.log + InsertRecord(id, vector, stamp));
    var filled := Insert(s.active, id, vector, now).0;
    if Insert(s.active, id, vector, now).1 == Ok && IsFilled(filled) {
      RotateKeepsSound(logged.(active := filled));
    }
  }

  /** A delete is logged, even if the table refuses it, and never rotates. */
  lemma DeleteEntryExactly(s: Lsm, id: Word, stamp: DoubleWord, now: nat)
    ensures var (t, status) := DeleteEntry(s, id, stamp, now);
      && (t.active, status) == Delete(s.active, id, now)
      && t == s.(active := t.active, log := s.log + DeleteRecord(id, stamp))
  {
  }

  lemma RotateKeeps(s: Lsm)
    requires Kept(s)
    ensures Kept(Rotate(s).0)
  {
    if s.immutables == [] && s.active.entries != [] { RotateKeepsSound(s); }
  }

  /** Every state of every run, whatever failed in it. */
  lemma {:induction false} RunKeeps(config: Config, calls: seq<Call>)
    ensures Kept(Run(Init(config), calls))
  {
    if calls != [] {
      var before, c := calls[..|calls| - 1], calls[|calls| - 1];
      RunKeeps(config, before);
      var s := Run(Init(config), before);
      if c.command.Write? {
        WriteCases(s, c);
        RotateKeeps(Written(s, c.command.op, c.stamp, c.now));
      } else {
        RotateKeeps(s);
      }
    }
  }

  // ---------------------------------------------------------------------------------------
  // Reads see the last write
  // ---------------------------------------------------------------------------------------

  /** Each id lives in one table, which says what the last write left. */
  ghost predicate Refines(s: Lsm, history: seq<Op>, id: Word) {
    && (forall k :: k in s.flushed && Has(s.flushed[k], id) ==>
          Lookup(s.flushed[k], id) == Latest(history, id) && !Has(s.active.entries, id))
    && (forall k, j :: k in s.flushed && j in s.flushed && Has(s.flushed[k], id) && Has(s.flushed[j], id) ==> k == j)
    && (!HeldByFlushed(s, id) ==> Get(s.active, id) == Latest(history, id))
  }

  /** The filters do not hide the table that holds the id, so a read returns exactly the latest value. */
  lemma ReadsLatest(s: Lsm, history: seq<Op>, id: Word, r: Option<Vec>)
    requires Sound(s) && Refines(s, history, id)
    ensures MayReturn(s, id, r) <==> r == Latest(history, id)
  {
    if HeldByFlushed(s, id) {
      var k :| k in s.flushed && Has(s.flushed[k], id);
      FiltersHideNothing(s.flushed[k], id);
      assert Answers(s.flushed, k, id, Lookup(s.flushed[k], id));
    }
    forall k, answer | Answers(s.flushed, k, id, answer) && answer != None
      ensures Has(s.flushed[k], id) && answer == Latest(history, id)
    {
    }
  }

  lemma WriteRefines(s: Lsm, history: seq<Op>, op: Op, now: nat, other: Word)
    requires Sound(s) && Refines(s, history, other) && Apply(s.active, op, now).1 == Ok && !HeldByFlushed(s, op.id)
    ensures Refines(s.(active := Apply(s.active, op, now).0), history + [op], other)
  {
    match op {
      case InsertOp(id, vector) => InsertThenGet(s.active, id, vector, now, other);
      case DeleteOp(id) => DeleteThenGet(s.active, id, now, other);
    }
    var next := s.(active := Apply(s.active, op, now).0);
    assert (history + [op])[..|history|] == history;
    assert HeldByFlushed(next, other) == HeldByFlushed(s, other);
  }

  lemma RotateRefines(s: Lsm, history: seq<Op>, id: Word)
    requires Sound(s) && s.active.entries != [] && Refines(s, history, id)
    ensures Refines(Rotate(s).0, history, id)
  {
    RotateKeepsSound(s);
    var t, n := Rotate(s).0, |s.flushed|;
    assert forall k :: k in t.flushed <==> k == n || k in s.flushed;
    assert forall k :: k in s.flushed ==> t.flushed[k] == s.flushed[k];
    assert t.flushed[n] == s.active.entries;
    if HeldByFlushed(s, id) {
      var k :| k in s.flushed && Has(s.flushed[k], id);
      assert HeldByFlushed(t, id);
    }
  }

  /** Either the table takes the write, and it is the latest, or nothing it holds changes. */
  lemma WrittenRefines(s: Lsm, history: seq<Op>, c: Call, id: Word)
    requires c.command.Write? && Sound(s) && Refines(s, history, id) && Confined(s, c)
    ensures Refines(Written(s, c.command.op, c.stamp, c.now), history + Accepted(s, c), id)
  {
    if Apply(s.active, c.command.op, c.now).1 == Ok {
      WriteRefines(s, history, c.command.op, c.now, id);
    } else {
      AcceptedKeeps(s, c.command.op, c.now);
      assert history + [] == history;
    }
  }

  lemma StepRefines(s: Lsm, history: seq<Op>, c: Call, id: Word)
    requires Sound(s) && Refines(s, history, id) && FlushesSomething(s, c) && Confined(s, c)
    ensures Sound(Step(s, c).0) && Refines(Step(s, c).0, history + Accepted(s, c), id)
  {
    match c.command {
      case Flush =>
        RotateKeepsSound(s);
        RotateRefines(s, history, id);
        assert history + [] == history;
      case Write(op) =>
        WriteCases(s, c);
        WrittenRefines(s, history, c, id);
        var w := Written(s, op, c.stamp, c.now);
        if Step(s, c).0 != w {
          RotateKeepsSound(w);
          RotateRefines(w, history + Accepted(s, c), id);
        }
    }
  }

  lemma {:induction false} RunRefines(config: Config, calls: seq<Call>, id: Word)
    requires Proper(Init(config), calls)
    ensures Sound(Run(Init(config), calls))
    ensures Refines(Run(Init(config), calls), History(Init(config), calls), id)
  {
    if calls != [] {
      var before := calls[..|calls| - 1];
      RunRefines(config, before, id);
      StepRefines(Run(Init(config), before), History(Init(config), before), calls[|calls| - 1], id);
    }
  }

  /** The store is a map: in any run whose flushes are not empty and in which each id is written in
      one generation only, a read can return exactly what the last accepted write left. */
  lemma LsmIsMap(config: Config, calls: seq<Call>, id: Word, r: Option<Vec>)
    requires Proper(Init(config), calls)
    ensures MayReturn(Run(Init(config), calls), id, r) <==> r == Latest(History(Init(config), calls), id)
  {
    RunRefines(config, calls, id);
    ReadsLatest(Run(Init(config), calls), History(Init(config), calls), id, r);
  }

  // ---------------------------------------------------------------------------------------
  // Where it is not a map
  // ---------------------------------------------------------------------------------------

  /** A flushed table holds the id, not as a tombstone. */
  predicate LiveIn(s: Lsm, k: int, id: Word) {
    k in s.flushed && Lookup(s.flushed[k], id).Some?
  }

  /** The live answers of flushed tables all pass the filters. */
  lemma LiveAnswers(s: Lsm, k: int, id: Word)
    requires Kept(s)
    ensures LiveIn(s, k, id) ==> Answers(s.flushed, k, id, Lookup(s.flushed[k], id))
  {
    if LiveIn(s, k, id) { FiltersHideNothing(s.flushed[k], id); }
  }

  /** A tombstone is only looked at in its own table: after a delete, reads find nothing exactly when no
      waiting table answers and no flushed table holds the id alive. */
  lemma DeleteEffectiveExactly(s: Lsm, id: Word, stamp: DoubleWord, now: nat)
    requires Kept(s)
    ensures (forall r :: MayReturn(DeleteEntry(s, id, stamp, now).0, id, r) <==> r == None)
       <==> FirstAnswer(s.immutables, id) == None && forall k :: !LiveIn(s, k, id)
  {
    var t := DeleteEntry(s, id, stamp, now).0;
    DeleteThenGet(s.active, id, now, id);
    if FirstAnswer(s.immutables, id).Some? {
      assert MayReturn(t, id, FirstAnswer(s.immutables, id));
    } else if k :| LiveIn(s, k, id) {
      LiveAnswers(s, k, id);
      assert Answers(t.flushed, k, id, Lookup(s.flushed[k], id));
      assert MayReturn(t, id, Lookup(s.flushed[k], id));
    } else {
      forall k, answer | Answers(t.flushed, k, id, answer) ensures answer == None {
        assert !LiveIn(s, k, id);
      }
    }
  }

  /** Every live flushed value of the id is the active table's, if that has one. */
  predicate AgreesWithFlushed(s: Lsm, id: Word) {
    Get(s.active, id).Some? ==>
      forall k :: k in s.flushed && Lookup(s.flushed[k], id).Some? ==> Lookup(s.flushed[k], id) == Get(s.active, id)
  }

  lemma FlushedAnswers(s: Lsm, k: int, id: Word, answer: Option<Vec>)
    requires Sound(s) && s.active.entries != [] && answer.Some?
    ensures Answers(Rotate(s).0.flushed, k, id, answer) <==>
      Answers(s.flushed, k, id, answer) || (k == |s.flushed| && answer == Get(s.active, id))
  {
    RotateKeepsSound(s);
    if k == |s.flushed| && answer == Get(s.active, id) {
      FiltersHideNothing(s.active.entries, id);
    }
  }

  /** A different value that was flushed earlier may be read after the flush, not before. */
  lemma OlderValueReturns(s: Lsm, k: int, id: Word)
    requires Sound(s) && s.active.entries != []
    requires LiveIn(s, k, id) && Get(s.active, id).Some? && Lookup(s.flushed[k], id) != Get(s.active, id)
    ensures MayReturn(Rotate(s).0, id, Lookup(s.flushed[k], id)) && !MayReturn(s, id, Lookup(s.flushed[k], id))
  {
    RotateKeepsSound(s);
    LiveAnswers(s, k, id);
    FlushedAnswers(s, k, id, Lookup(s.flushed[k], id));
  }

  lemma FlushKeepsReads(s: Lsm, id: Word, r: Option<Vec>)
    requires Sound(s) && s.active.entries != [] && AgreesWithFlushed(s, id)
    ensures MayReturn(Rotate(s).0, id, r) <==> MayReturn(s, id, r)
  {
    RotateKeepsSound(s);
    var t, n := Rotate(s).0, |s.flushed|;
    forall k, answer: Option<Vec> | answer.Some?
      ensures Answers(t.flushed, k, id, answer) <==>
        Answers(s.flushed, k, id, answer) || (k == n && answer == Get(s.active, id))
    {
      FlushedAnswers(s, k, id, answer);
    }
    if Get(s.active, id).Some? { assert Answers(t.flushed, n, id, Get(s.active, id)); }
  }

  /** The waiting tables say of the id what the active one does, if both have a value. */
  predicate AgreesWithWaiting(s: Lsm, id: Word) {
    Get(s.active, id).Some? && FirstAnswer(s.immutables, id).Some? ==>
      FirstAnswer(s.immutables, id) == Get(s.active, id)
  }

  lemma {:induction false} FirstAnswerAppend(tables: seq<Table>, t: Table, id: Word)
    ensures FirstAnswer(tables + [t], id)
            == if FirstAnswer(tables, id).Some? then FirstAnswer(tables, id) else Get(t, id)
  {
    if tables == [] {
      assert [t][1..] == [];
    } else {
      assert (tables + [t])[1..] == tables[1..] + [t];
      FirstAnswerAppend(tables[1..], t, id);
    }
  }

  /** A rotation that fails moves the active table behind those that wait. */
  lemma FailedFlushReads(s: Lsm, id: Word)
    requires Rotate(s).1 != Ok
    ensures Get(Rotate(s).0.active, id) == None && Rotate(s).0.flushed == s.flushed
    ensures FirstAnswer(Rotate(s).0.immutables, id)
         == if FirstAnswer(s.immutables, id).Some? then FirstAnswer(s.immutables, id) else Get(s.active, id)
  {
    FirstAnswerAppend(s.immutables, s.active.(immutable := true), id);
  }

  /** A flush keeps what reads of an id may return exactly when no other value comes to be read first: an
      older one that was flushed earlier, or, when the rotation fails, one in a waiting table. */
  lemma FlushKeepsReadsExactly(s: Lsm, id: Word)
    requires Kept(s)
    ensures (forall r :: MayReturn(Rotate(s).0, id, r) <==> MayReturn(s, id, r))
       <==> if Rotate(s).1 == Ok then AgreesWithFlushed(s, id) else AgreesWithWaiting(s, id)
  {
    if Rotate(s).1 == Ok {
      if AgreesWithFlushed(s, id) {
        forall r { FlushKeepsReads(s, id, r); }
      } else {
        var k :| k in s.flushed && Lookup(s.flushed[k], id).Some? && Lookup(s.flushed[k], id) != Get(s.active, id);
        OlderValueReturns(s, k, id);
      }
    } else {
      FailedFlushReads(s, id);
      if !AgreesWithWaiting(s, id) {
        assert MayReturn(s, id, Get(s.active, id)) && !MayReturn(Rotate(s).0, id, Get(s.active, id));
      }
    }
  }

  lemma DeletedYetRead(s: Lsm, k: int, id: Word, stamp: DoubleWord, now: nat)
    requires Sound(s) && LiveIn(s, k, id)
    ensures MayReturn(DeleteEntry(s, id, stamp, now).0, id, Lookup(s.flushed[k], id))
    ensures !MayReturn(DeleteEntry(s, id, stamp, now).0, id, None)
  {
    var t := DeleteEntry(s, id, stamp, now).0;
    DeleteThenGet(s.active, id, now, id);
    LiveAnswers(s, k, id);
    assert Answers(t.flushed, k, id, Lookup(s.flushed[k], id));
  }

  lemma RunOfThree(s: Lsm, a: Call, b: Call, c: Call)
    ensures Run(s, [a, b, c]) == Step(Step(Step(s, a).0, b).0, c).0
  {
    assert [a, b, c][..2] == [a, b] && [a, b][..1] == [a] && [a][..0] == [];
    assert Run(s, [a]) == Step(s, a).0;
    assert Run(s, [a, b]) == Step(Step(s, a).0, b).0;
  }

  lemma InsertedThenFlushed(s: Lsm, id: Word, vector: Vec, stamp: DoubleWord, now: nat)
    requires Sound(s) && Insert(s.active, id, vector, now).1 == Ok && !IsFull(Insert(s.active, id, vector, now).0)
    ensures Sound(Rotate(InsertWithId(s, id, vector, stamp, now).0).0)
    ensures LiveIn(Rotate(InsertWithId(s, id, vector, stamp, now).0).0, |s.flushed|, id)
    ensures Lookup(Rotate(InsertWithId(s, id, vector, stamp, now).0).0.flushed[|s.flushed|], id) == Some(vector)
  {
    AcceptedKeeps(s, InsertOp(id, vector), now);
    InsertThenGet(s.active, id, vector, now, id);
    RotateKeepsSound(InsertWithId(s, id, vector, stamp, now).0);
  }

  lemma SmallInsertFits(id: Word, vector: Vec, now: nat)
    requires |vector| <= 1000
    ensures Insert(Empty(DefaultConfig()), id, vector, now).1 == Ok
    ensures !IsFull(Insert(Empty(DefaultConfig()), id, vector, now).0)
  {
    var size := SizeOf(vector);
    assert Plus(0, size) == size;
  }

  /** Insert, flush, delete: every read still finds the vector. */
  lemma DeletedVectorReturns(id: Word, vector: Vec)
    requires |vector| <= 1000
    ensures var s := Run(Init(DefaultConfig()),
        [Call(Write(InsertOp(id, vector)), 0, 0), Call(Flush, 0, 1), Call(Write(DeleteOp(id)), 2, 2)]);
      MayReturn(s, id, Some(vector)) && !MayReturn(s, id, None)
  {
    var start := Init(DefaultConfig());
    RunOfThree(start, Call(Write(InsertOp(id, vector)), 0, 0), Call(Flush, 0, 1), Call(Write(DeleteOp(id)), 2, 2));
    SmallInsertFits(id, vector, 0);
    InsertedThenFlushed(start, id, vector, 0, 0);
    DeletedYetRead(Rotate(InsertWithId(start, id, vector, 0, 0).0).0, 0, id, 2, 2);
  }

  lemma RunNext(s: Lsm, calls: seq<Call>, c: Call)
    ensures Run(s, calls + [c]) == Step(Run(s, calls), c).0
  {
    assert (calls + [c])[..|calls + [c]| - 1] == calls;
  }

  /** What an overwriting insert does where an older value is flushed. */
  lemma OverwrittenThenFlushed(s: Lsm, k: int, id: Word, vector: Vec, stamp: DoubleWord, now: nat)
    requires Sound(s) && s.active == Empty(DefaultConfig()) && |vector| <= 1000
    requires LiveIn(s, k, id) && Lookup(s.flushed[k], id) != Some(vector)
    ensures var t, older := InsertWithId(s, id, vector, stamp, now).0, Lookup(s.flushed[k], id);
      && MayReturn(t, id, Some(vector)) && !MayReturn(t, id, older) && MayReturn(Rotate(t).0, id, older)
  {
    SmallInsertFits(id, vector, now);
    AcceptedKeeps(s, InsertOp(id, vector), now);
    InsertThenGet(s.active, id, vector, now, id);
    OlderValueReturns(InsertWithId(s, id, vector, stamp, now).0, k, id);
  }

  /** Insert, flush, insert again: reads find the newer vector only; after one more flush they may find the
      older one. */
  lemma OlderValueCounterexample(id: Word, older: Vec, newer: Vec)
    requires |older| <= 1000 && |newer| <= 1000 && older != newer
    ensures var calls := [Call(Write(InsertOp(id, older)), 0, 0), Call(Flush, 0, 1),
                         Call(Write(InsertOp(id, newer)), 2, 2)];
      var before, after := Run(Init(DefaultConfig()), calls), Run(Init(DefaultConfig()), calls + [Call(Flush, 0, 3)]);
      && MayReturn(before, id, Some(newer)) && !MayReturn(before, id, Some(older))
      && MayReturn(after, id, Some(older))
  {
    var start := Init(DefaultConfig());
    var a, b := Call(Write(InsertOp(id, older)), 0, 0), Call(Flush, 0, 1);
    var c, d := Call(Write(InsertOp(id, newer)), 2, 2), Call(Flush, 0, 3);
    RunOfThree(start, a, b, c);
    RunNext(start, [a, b, c], d);
    SmallInsertFits(id, older, 0);
    InsertedThenFlushed(start, id, older, 0, 0);
    var flushed := Rotate(InsertWithId(start, id, older, 0, 0).0).0;
    OverwrittenThenFlushed(flushed, 0, id, newer, 2, 2);
  }

  // ---------------------------------------------------------------------------------------
  // Failed rotations
  // ---------------------------------------------------------------------------------------

  /** A rotation succeeds exactly when the oldest table that waits, or else the active one, holds
      something; when it fails the store is jammed. */
  lemma RotationSucceedsExactly(s: Lsm)
    ensures Rotate(s).1 == Ok <==> !Jammed(s) && (s.immutables == [] ==> s.active.entries != [])
    ensures Rotate(s).1 != Ok ==> Jammed(Rotate(s).0)
  {
  }

  /** Jammed once, jammed for good: no later command flushes a table or clears the log. */
  lemma {:induction false} JamIsForever(s: Lsm, calls: seq<Call>)
    requires Jammed(s)
    ensures Jammed(Run(s, calls)) && Rotate(Run(s, calls)).1 == InvalidArgument
    ensures Run(s, calls).flushed == s.flushed && s.log <= Run(s, calls).log
  {
    if calls != [] {
      JamIsForever(s, calls[..|calls| - 1]);
      match calls[|calls| - 1].command {
        case Flush =>
        case Write(InsertOp(_, _)) =>
        case Write(DeleteOp(_)) =>
      }
    }
  }

  lemma {:induction false} RunAfter(s: Lsm, first: Call, calls: seq<Call>)
    ensures Run(s, [first] + calls) == Run(Step(s, first).0, calls)
  {
    if calls == [] {
      assert [first] + calls == [first] && [first][..0] == [];
      assert Run(s, [first][..0]) == s;
    } else {
      var last := |calls| - 1;
      assert ([first] + calls)[..|[first] + calls| - 1] == [first] + calls[..last];
      RunAfter(s, first, calls[..last]);
    }
  }

  /** A flush of a new store jams it: whatever is written afterwards, nothing is ever flushed, and no later
      flush succeeds. */
  lemma FirstFlushJams(config: Config, c: Call, calls: seq<Call>)
    requires c.command == Flush
    ensures var s := Run(Init(config), [c] + calls);
      Jammed(s) && s.flushed == map[] && Rotate(s).1 == InvalidArgument
  {
    RunAfter(Init(config), c, calls);
    JamIsForever(Step(Init(config), c).0, calls);
  }

  // ---------------------------------------------------------------------------------------
  // Replaying the log
  // ---------------------------------------------------------------------------------------

  /** Applies operations one after the other, those the table refuses having no effect. */
  function Replay(t: Table, ops: seq<Op>): Table {
    if ops == [] then t else Apply(Replay(t, ops[..|ops| - 1]), ops[|ops| - 1], 0).0
  }

  /** Equal but for timestamps. */
  predicate SameEntries(a: seq<Entry>, b: seq<Entry>) {
    |a| == |b| && forall i :: 0 <= i < |a| ==> a[i].(timestamp := b[i].timestamp) == b[i]
  }

  predicate SameTable(a: Table, b: Table) {
    SameEntries(a.entries, b.entries) && a.(entries := b.entries) == b
  }

  lemma {:induction false} SameFind(a: seq<Entry>, b: seq<Entry>, id: Word)
    requires SameEntries(a, b)
    ensures Find(a, id) == Find(b, id)
  {
    if a != [] {
      SameFind(a[..|a| - 1], b[..|b| - 1], id);
      assert a[|a| - 1].nodeId == b[|b| - 1].nodeId;
    }
  }

  /** Whether a table takes an operation, and what it then holds, does not depend on the clock. */
  lemma SameApply(a: Table, b: Table, op: Op, now: nat, later: nat)
    requires SameTable(a, b)
    ensures Apply(a, op, now).1 == Apply(b, op, later).1
    ensures SameTable(Apply(a, op, now).0, Apply(b, op, later).0)
  {
    SameFind(a.entries, b.entries, op.id);
  }

  ghost predicate LogIs(log: seq<Byte>, ops: seq<Logged>) {
    log == LogOf(ops) && AllLoggable(ops)
  }

  predicate Rebuilds(ops: seq<Op>, t: Table) {
    SameTable(Replay(Empty(t.config), ops), t)
  }

  /** The log is that of some operations which rebuild the active table from nothing. */
  ghost predicate LogRebuilds(s: Lsm, ops: seq<Logged>) {
    LogIs(s.log, ops) && Rebuilds(PlainOps(ops), s.active)
  }

  lemma LogIsNext(log: seq<Byte>, ops: seq<Logged>, last: Logged)
    requires LogIs(log, ops) && Loggable(last.op)
    ensures LogIs(log + RecordOf(last.op, last.stamp), ops + [last])
  {
    LogGrows(ops, last);
  }

  lemma RebuildsNext(ops: seq<Op>, t: Table, op: Op, now: nat)
    requires Rebuilds(ops, t)
    ensures Rebuilds(ops + [op], Apply(t, op, now).0)
  {
    assert (ops + [op])[..|ops|] == ops;
    SameApply(Replay(Empty(t.config), ops), t, op, 0, now);
  }

  lemma WriteIsLogged(s: Lsm, ops: seq<Logged>, op: Op, stamp: DoubleWord, now: nat)
    requires LogRebuilds(s, ops) && Loggable(op)
    ensures LogRebuilds(Written(s, op, stamp, now), ops + [Logged(op, stamp)])
  {
    LogIsNext(s.log, ops, Logged(op, stamp));
    RebuildsNext(PlainOps(ops), s.active, op, now);
    assert PlainOps(ops + [Logged(op, stamp)]) == PlainOps(ops) + [op];
  }

  /** What a run does to the log, from a state no rotation of which has failed. */
  lemma {:induction false} RunIsLogged(config: Config, calls: seq<Call>) returns (ops: seq<Logged>)
    requires FlushesAllSomething(Init(config), calls) && LogsAll(calls)
    ensures Sound(Run(Init(config), calls)) && LogRebuilds(Run(Init(config), calls), ops)
  {
    ops := [];
    if calls != [] {
      var before, c := calls[..|calls| - 1], calls[|calls| - 1];
      var earlier := RunIsLogged(config, before);
      var s := Run(Init(config), before);
      match c.command {
        case Flush => RotateKeepsSound(s);
        case Write(op) =>
          WriteIsLogged(s, earlier, op, c.stamp, c.now);
          WriteCases(s, c);
          var w := Written(s, op, c.stamp, c.now);
          if Step(s, c).0 == w { ops := earlier + [Logged(op, c.stamp)]; } else { RotateKeepsSound(w); }
      }
    }
  }

  ghost predicate FlushesAllSomething(s: Lsm, calls: seq<Call>) {
    calls != [] ==>
      var before := calls[..|calls| - 1];
      FlushesAllSomething(s, before) && FlushesSomething(Run(s, before), calls[|calls| - 1])
  }

  /** Every vector written fits a log record. */
  predicate LogsAll(calls: seq<Call>) {
    forall i :: 0 <= i < |calls| && calls[i].command.Write? ==> Loggable(calls[i].command.op)
  }

  /** After every command of a run whose rotations succeed, recovering the log and replaying it
      into an empty table of this generation's configuration gives the active table: the same
      ids, vectors and tombstones in the same order, and the same size. */
  lemma ReplayRebuildsActive(config: Config, calls: seq<Call>)
    requires FlushesAllSomething(Init(config), calls) && LogsAll(calls)
    ensures var s := Run(Init(config), calls);
      SameTable(Replay(Empty(s.active.config), OpsOf(Recovered(s.log))), s.active)
  {
    var ops := RunIsLogged(config, calls);
    LogRecovers(ops);
  }

  // ---------------------------------------------------------------------------------------
  // The store object
  // ---------------------------------------------------------------------------------------

  function States(tables: seq<MemTable>): (r: seq<Table>)
    reads tables
    ensures |r| == |tables| && forall i :: 0 <= i < |r| ==> r[i] == tables[i].State()
  {
    seq(|tables|, i requires 0 <= i < |tables| reads tables => tables[i].State())
  }

  predicate NoAnswer(contents: map<int, seq<Entry>>, keys: seq<int>, id: Word) {
    forall k :: k in keys && k in contents ==> Lookup(contents[k], id) == None
  }

  lemma Answer(contents: map<int, seq<Entry>>, k: int, id: Word)
    requires k in contents && contents[k] != [] && Passes(contents[k], id)
    ensures Answers(contents, k, id, Lookup(contents[k], id))
  {
  }

  lemma NoneAnswers(contents: map<int, seq<Entry>>, keys: seq<int>, id: Word)
    requires forall k :: k in contents ==> contents[k] != []
    requires forall k :: k in contents && Passes(contents[k], id) ==> k in keys
    requires NoAnswer(contents, keys, id)
    ensures forall k, answer :: Answers(contents, k, id, answer) ==> answer == None
  {
  }

  lemma RestOfStates(tables: seq<MemTable>)
    requires tables != []
    ensures States(tables[1..]) == States(tables)[1..]
  {
  }

  ghost predicate AllValid(tables: seq<MemTable>)
    reads tables
  {
    forall t :: t in tables ==> t.Valid() && |t.entries| < SIZE_MODULUS
  }

  predicate AllUnique(contents: map<int, seq<Entry>>) {
    forall k :: k in contents ==> UniqueIds(contents[k])
  }

  lemma NothingAsked(contents: map<int, seq<Entry>>, id: Word)
    ensures NoAnswer(contents, [], id)
  {
  }

  lemma NoAnswerNext(contents: map<int, seq<Entry>>, keys: seq<int>, i: nat, id: Word)
    requires i < |keys| && NoAnswer(contents, keys[..i], id)
    requires keys[i] in contents ==> Lookup(contents[keys[i]], id) == None
    ensures NoAnswer(contents, keys[..i + 1], id)
  {
    assert keys[..i + 1] == keys[..i] + [keys[i]];
  }

  class LsmWriteManager {
    var active: MemTable
    var immutables: seq<MemTable>
    const sstables: SSTableManager
    const wal: WalManager

    ghost predicate Valid()
      reads this, active, immutables, sstables, wal
    {
      && active.Valid() && active !in immutables
      && AllValid(immutables)
      && sstables.Valid() && AllUnique(sstables.contents)
    }

    ghost function State(): Lsm
      reads this, active, immutables, sstables, wal
    {
      Lsm(active.State(), States(immutables), sstables.contents, wal.file)
    }

    constructor (config: Config)
      ensures Valid() && State() == Init(config)
    {
      active := new MemTable(config);
      immutables := [];
      sstables := new SSTableManager();
      wal := new WalManager();
    }

    method RetireActive()
      requires Valid() && |active.entries| < SIZE_MODULUS
      modifies this, active
      ensures Valid() && State() == Retire(old(State()))
      ensures fresh(active)
    {
      active.MarkImmutable();
      immutables := immutables + [active];
      active := new MemTable(DefaultConfig());
      assert States(immutables) == old(States(immutables)) + [old(active.State()).(immutable := true)];
    }

    method FlushFirst() returns (status: Status)
      requires Valid() && immutables != []
      modifies this, sstables, wal
      ensures Valid() && (State(), status) == FlushOldest(old(State()))
    {
      var id;
      status, id := sstables.CreateFromMemtable(immutables[0]);
      if status != Ok { return; }
      wal.Clear();
      assert States(immutables) == old(States(immutables));
      RestOfStates(immutables);
      immutables := immutables[1..];
    }

    method RotateMemtable() returns (status: Status)
      requires Valid() && |active.entries| < SIZE_MODULUS
      modifies this, active, sstables, wal
      ensures Valid() && (State(), status) == Rotate(old(State()))
    {
      RetireActive();
      status := FlushFirst();
    }

    method InsertVector(id: Word, vector: Vec, stamp: DoubleWord, now: nat) returns (status: Status)
      requires Valid() && |active.entries| + 1 < SIZE_MODULUS
      modifies this, active, sstables, wal
      ensures Valid() && (State(), status) == InsertWithId(old(State()), id, vector, stamp, now)
    {
      hide Rotate;
      hide Indexed;
      hide InsertRecord;
      hide States;
      wal.LogInsert(id, vector, stamp);
      status := active.InsertVector(id, vector, now);
      if status != Ok { return; }
      if IsFull(active.State()) {
        status := RotateMemtable();
      }
    }

    method DeleteVector(id: Word, stamp: DoubleWord, now: nat) returns (status: Status)
      requires Valid()
      modifies active, wal
      ensures Valid() && (State(), status) == DeleteEntry(old(State()), id, stamp, now)
    {
      wal.LogDelete(id, stamp);
      status := active.DeleteEntry(id, now);
    }

    method GetFromRetired(id: Word) returns (vector: Option<Vec>)
      requires Valid()
      ensures vector == FirstAnswer(States(immutables), id)
    {
      for i := 0 to |immutables|
        invariant FirstAnswer(States(immutables)[i..], id) == FirstAnswer(States(immutables), id)
      {
        vector := immutables[i].GetVector(id);
        if vector.Some? { return; }
        assert States(immutables)[i..][1..] == States(immutables)[i + 1..];
      }
      vector := None;
    }

    method GetFromFlushed(id: Word) returns (vector: Option<Vec>)
      requires Valid()
      ensures vector.Some? ==> exists k :: Answers(sstables.contents, k, id, vector)
      ensures vector.None? ==> forall k, answer :: Answers(sstables.contents, k, id, answer) ==> answer == None
    {
      hide Answers;
      hide Passes;
      hide NoAnswer;
      hide UniqueIds;
      hide Lookup;
      hide FirstLookup;
      var candidates := sstables.GetSstablesContaining(id);
      NothingAsked(sstables.contents, id);
      for i := 0 to |candidates|
        invariant NoAnswer(sstables.contents, candidates[..i], id)
      {
        var k := candidates[i];
        assert k in candidates;
        vector := sstables.ReadVector(k, id);
        FirstIsOnly(sstables.contents[k], id);
        if vector.Some? {
          Answer(sstables.contents, k, id);
          return;
        }
        NoAnswerNext(sstables.contents, candidates, i, id);
      }
      assert candidates[..|candidates|] == candidates;
      NoneAnswers(sstables.contents, candidates, id);
      vector := None;
    }

    method GetVector(id: Word) returns (vector: Option<Vec>)
      requires Valid()
      ensures MayReturn(State(), id, vector)
    {
      vector := active.GetVector(id);
      if vector.Some? { return; }
      vector := GetFromRetired(id);
      if vector.Some? { return; }
      vector := GetFromFlushed(id);
    }
  }
}
