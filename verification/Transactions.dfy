/** The objects of a running engine: a transaction with its buffer, a table over its heap, and
    recovery. Each method is tied to the transition system's functions. */
module Transactions {
  import opened Values
  import opened Storage
  import opened Records
  import opened Engine

  datatype Failure = AlreadyFinished | InFailedTransaction | Conflict | BadRow | UnknownTable | IoError

  /** The log as committing transactions see it. An I/O error closes it for good. */
  class Journal {
    var frames: seq<seq<Record>>
    var open: bool
    var dirty: bool

    constructor (frames: seq<seq<Record>>)
      ensures this.frames == frames && open && !dirty
    {
      this.frames, open, dirty := frames, true, false;
    }

    /** `io` is what the operating system makes of the write. */
    method Write(recs: seq<Record>, io: Io) returns (ok: bool)
      modifies this
      ensures ok <==> recs == [] || (old(open) && io == Written)
      ensures frames == if recs != [] && old(open) && io != Lost then old(frames) + [recs] else old(frames)
      ensures open == (old(open) && ok)
      ensures dirty == (old(dirty) || (recs != [] && old(open) && io != Lost))
    {
      if recs == [] { return true; }
      if !open { return false; }
      if io == Lost {
        open := false;
        return false;
      }
      frames := frames + [recs];
      dirty := true;
      if io == SyncFailed {
        open := false;
        return false;
      }
      return true;
    }

    /** Replaces the history by one frame of the present state, if anything was written since the last. */
    method Replace(recs: seq<Record>) returns (ok: bool)
      modifies this
      ensures frames == if old(dirty) then (if recs == [] then [] else [recs]) else old(frames)
      ensures open == old(open) && dirty == (old(dirty) && !open) && ok == !dirty
    {
      if !dirty { return true; }
      frames := if recs == [] then [] else [recs];
      if !open { return false; }
      dirty := false;
      return true;
    }
  }

  class Tx {
    const id: TxID
    const mgr: TxManager
    const iso: Isolation
    const journal: Journal?
    var snap: Snapshot
    var failed: bool
    var done: bool
    var pending: seq<Record>

    constructor (mgr: TxManager, iso: Isolation, journal: Journal?)
      requires ValidMgr(mgr.Model())
      modifies mgr
      ensures this.mgr == mgr && this.iso == iso && this.journal == journal && id == old(mgr.next)
      ensures ValidMgr(mgr.Model()) && mgr.Model() == Issued(old(mgr.Model()))
      ensures snap == SnapshotOf(mgr.Model()) && !failed && !done && pending == []
    {
      var id := mgr.Begin();
      var s := mgr.Take();
      this.id, this.mgr, this.iso, this.journal := id, mgr, iso, journal;
      snap, failed, done, pending := s, false, false, [];
      new;
      OnlySnapshot(s, mgr.Model());
    }

    method NextStatement() returns (r: Result<(), Failure>)
      requires ValidMgr(mgr.Model())
      modifies this
      ensures done == old(done) && failed == old(failed) && pending == old(pending)
      ensures r == if done then Err(AlreadyFinished) else if failed then Err(InFailedTransaction) else Ok(())
      ensures snap == if r.Ok? && iso == ReadCommitted then SnapshotOf(mgr.Model()) else old(snap)
    {
      if done { return Err(AlreadyFinished); }
      if failed { return Err(InFailedTransaction); }
      if iso == ReadCommitted {
        snap := mgr.Take();
        OnlySnapshot(snap, mgr.Model());
      }
      return Ok(());
    }

    method Fail()
      modifies this
      ensures failed && done == old(done) && pending == old(pending) && snap == old(snap)
    {
      failed := true;
    }

    /** An in-memory database buffers nothing. */
    method Log(rec: Record)
      modifies this
      ensures pending == if journal == null then old(pending) else old(pending) + [rec]
      ensures done == old(done) && failed == old(failed) && snap == old(snap)
    {
      if journal == null { return; }
      pending := pending + [rec];
    }

    /** Durable before visible: the status changes only after the journal took the buffer. */
    method Commit(io: Io) returns (r: Result<(), Failure>)
      requires ValidMgr(mgr.Model())
      modifies this, mgr, journal
      ensures old(done) ==> r == Err(AlreadyFinished) && mgr.Model() == old(mgr.Model()) && pending == old(pending)
      ensures !old(done) ==> done && mgr.Model() == Finished(old(mgr.Model()), id, if r.Ok? then Committed else Aborted)
      ensures !old(done) && old(failed) ==> r == Err(InFailedTransaction)
      ensures !old(done) && !old(failed) && (journal == null || old(pending) == []) ==> r == Ok(())
      ensures !old(done) && !old(failed) && journal != null && old(pending) != [] ==>
                r == if old(journal.open) && io == Written then Ok(()) else Err(IoError)
      ensures journal != null ==>
                var landed := !old(done) && !old(failed) && old(pending) != [] && old(journal.open) && io != Lost;
                && journal.frames == (if landed then old(journal.frames) + [old(pending)] else old(journal.frames))
                && journal.dirty == (old(journal.dirty) || landed)
                && (old(done) || old(failed) || old(pending) == [] || r.Ok? ==> journal.open == old(journal.open))
                && (!old(done) && !old(failed) && r.Err? ==> !journal.open)
      ensures ValidMgr(mgr.Model())
    {
      if done { return Err(AlreadyFinished); }
      if failed {
        done := true;
        mgr.Finish(id, Aborted);
        return Err(InFailedTransaction);
      }
      var ok := true;
      if pending != [] && journal != null {
        ok := journal.Write(pending, io);
        pending := [];
      }
      done := true;
      if !ok {
        mgr.Finish(id, Aborted);
        return Err(IoError);
      }
      mgr.Finish(id, Committed);
      return Ok(());
    }

    method Rollback()
      requires ValidMgr(mgr.Model())
      modifies this, mgr
      ensures done && ValidMgr(mgr.Model())
      ensures mgr.Model() == if old(done) then old(mgr.Model()) else Finished(old(mgr.Model()), id, Aborted)
      ensures !old(done) ==> pending == []
    {
      if done { return; }
      done := true;
      pending := [];
      mgr.Finish(id, Aborted);
    }
  }

  /** A snapshot is determined by the manager's state. */
  lemma OnlySnapshot(s: Snapshot, m: Mgr)
    requires ValidMgr(m) && IsSnapshotOf(s, m)
    ensures s == SnapshotOf(m)
  {}

  /** Commit is the transition system's flush followed, when that succeeded, by its status change. */
  lemma CommitIsTwoSteps(e: State, t: TxID, io: Io)
    requires ValidMgr(e.mgr) && Statement(e, t)
    ensures var f := Step(Step(e, Flush(t, io)), FinishCommit(t));
            var ok := e.txs[t].pending == [] || (e.open && io == Written);
            var landed := e.txs[t].pending != [] && e.open && io != Lost;
            && t in f.txs && f.txs[t].ctl.stage == Done && f.txs[t].pending == []
            && f.mgr == Finished(e.mgr, t, if ok then Committed else Aborted)
            && f.log == (if landed then e.log + [e.txs[t].pending] else e.log)
            && f.open == (e.open && ok) && f.heaps == e.heaps
  {}

  class Table {
    const name: Name
    const heap: Heap
    /** The per-row constraints: they refuse a row or round its numerics to the declared scale. */
    const check: Row -> Option<Row>

    constructor (name: Name, heap: Heap, check: Row -> Option<Row>)
      ensures this.name == name && this.heap == heap && this.check == check
    {
      this.name, this.heap, this.check := name, heap, check;
    }

    method Insert(tx: Tx, row: Row) returns (r: Result<(), Failure>)
      requires heap.Valid()
      modifies heap, tx
      ensures heap.Valid() && (r.Ok? <==> check(row).Some?)
      ensures r.Err? ==> r == Err(BadRow) && heap.Model() == old(heap.Model()) && tx.pending == old(tx.pending)
      ensures r.Ok? ==> heap.Model() == HeapInsert(old(heap.Model()), tx.id, check(row).value)
      ensures r.Ok? && tx.journal != null ==> tx.pending == old(tx.pending) + [Record.Insert(name, old(heap.nextRow), check(row).value)]
    {
      var checked := check(row);
      if checked.None? { return Err(BadRow); }
      var v := heap.Insert(tx.id, checked.value);
      tx.Log(Record.Insert(name, v.id, checked.value));
      return Ok(());
    }

    method Delete(tx: Tx, v: Version) returns (r: Result<(), Failure>)
      requires heap.Valid() && v in heap.versions
      modifies v, tx
      ensures heap.Valid()
      ensures r == if DeleteConflicts(old(v.Model()), heap.mgr.status, tx.id) then Err(Conflict) else Ok(())
      ensures r.Err? ==> heap.Model() == old(heap.Model()) && tx.pending == old(tx.pending)
      ensures r.Ok? ==> heap.Model() == HeapState(Stamp(old(heap.Vers()), v.id, tx.id), heap.nextRow)
      ensures r.Ok? && tx.journal != null ==> tx.pending == old(tx.pending) + [Record.Delete(name, v.id)]
    {
      var conflict := heap.Delete(tx.id, v);
      if conflict { return Err(Conflict); }
      tx.Log(Record.Delete(name, v.id));
      return Ok(());
    }

    /** An update deletes the old version and writes a new one, under a new row id. */
    method Update(tx: Tx, v: Version, row: Row) returns (r: Result<(), Failure>)
      requires heap.Valid() && v in heap.versions
      modifies heap, v, tx
      ensures heap.Valid()
      ensures r == if check(row).None? then Err(BadRow)
                   else if DeleteConflicts(old(v.Model()), heap.mgr.status, tx.id) then Err(Conflict) else Ok(())
      ensures r.Err? ==> heap.Model() == old(heap.Model()) && tx.pending == old(tx.pending)
      ensures r.Ok? ==> heap.Model() == HeapInsert(HeapState(Stamp(old(heap.Vers()), v.id, tx.id), old(heap.nextRow)), tx.id, check(row).value)
      ensures r.Ok? && tx.journal != null ==>
                tx.pending == old(tx.pending) + [Record.Delete(name, v.id), Record.Insert(name, old(heap.nextRow), check(row).value)]
    {
      hide Heap.Valid, Heap.Vers, HeapInsert, Stamp, DeleteConflicts;
      var checked := check(row);
      if checked.None? { return Err(BadRow); }
      var conflict := heap.Delete(tx.id, v);
      if conflict { return Err(Conflict); }
      var fresh' := heap.Insert(tx.id, checked.value);
      tx.Log(Record.Delete(name, v.id));
      tx.Log(Record.Insert(name, fresh'.id, checked.value));
      return Ok(());
    }
  }

  // ---- checkpoint ----

  /** One insert record for every version, in order. */
  function InsertRecords(name: Name, vs: seq<Ver>): (r: seq<Record>)
    ensures |r| == |vs|
  {
    seq(|vs|, i requires 0 <= i < |vs| => Record.Insert(name, vs[i].id, vs[i].vals))
  }

  /** A table's name and its heap's versions. */
  datatype Contents = Contents(name: Name, versions: seq<Ver>)

  /** What a snapshot sees of every table, as insert records. */
  function SnapshotRows(all: seq<Contents>, s: Snapshot, status: map<TxID, Status>, self: TxID): seq<Record> {
    if all == [] then []
    else
      var last := all[|all| - 1];
      SnapshotRows(all[..|all| - 1], s, status, self) + InsertRecords(last.name, ScanVersions(last.versions, s, status, self))
  }

  method ScanRecords(t: Table, tx: Tx) returns (recs: seq<Record>)
    ensures recs == InsertRecords(t.name, ScanVersions(t.heap.Vers(), tx.snap, t.heap.mgr.status, tx.id))
  {
    var vs := t.heap.Scan(tx.snap, tx.id);
    recs := [];
    for i := 0 to |vs|
      invariant recs == InsertRecords(t.name, VersOf(vs)[..i])
    {
      recs := recs + [Record.Insert(t.name, vs[i].id, vs[i].vals)];
    }
    assert VersOf(vs)[..|vs|] == VersOf(vs);
  }

  /** The first half of a checkpoint: one repeatable-read transaction, whose snapshot the whole of it
      uses. Nothing is locked afterwards, so other sessions may begin, write and commit before the
      second half. */
  method BeginCheckpoint(mgr: TxManager, journal: Journal) returns (tx: Tx)
    requires ValidMgr(mgr.Model())
    modifies mgr
    ensures fresh(tx) && tx.mgr == mgr && tx.iso == RepeatableRead && tx.journal == journal && tx.id == old(mgr.next)
    ensures ValidMgr(mgr.Model()) && mgr.Model() == Issued(old(mgr.Model()))
    ensures tx.snap == SnapshotOf(mgr.Model()) && !tx.failed && !tx.done && tx.pending == []
  {
    tx := new Tx(mgr, RepeatableRead, journal);
  }

  /** The second half: scans every table through the snapshot taken in the first, replaces the log with
      the schema statements and what it saw, and rolls the transaction back. */
  method FinishCheckpoint(tx: Tx, schema: seq<Record>, tables: seq<Table>, journal: Journal, ghost all: seq<Contents>) returns (ok: bool)
    requires ValidMgr(tx.mgr.Model()) && !tx.done && |all| == |tables|
    requires forall i :: 0 <= i < |tables| ==>
               tables[i].heap.mgr == tx.mgr && all[i] == Contents(tables[i].name, tables[i].heap.Vers())
    modifies tx, tx.mgr, journal
    ensures tx.done && ValidMgr(tx.mgr.Model()) && tx.mgr.Model() == Finished(old(tx.mgr.Model()), tx.id, Aborted)
    ensures var recs := schema + SnapshotRows(all, old(tx.snap), old(tx.mgr.status), tx.id);
            journal.frames == if old(journal.dirty) then (if recs == [] then [] else [recs]) else old(journal.frames)
    ensures journal.open == old(journal.open) && journal.dirty == (old(journal.dirty) && !journal.open)
    ensures ok <==> !old(journal.dirty) || journal.open
  {
    hide Finished, ValidMgr, ScanVersions, InsertRecords, SnapshotRows;
    var recs := schema;
    NoRows(tx.snap, tx.mgr.status, tx.id);
    for i := 0 to |tables|
      invariant unchanged(journal) && unchanged(tx) && unchanged(tx.mgr)
      invariant recs == schema + SnapshotRows(all[..i], tx.snap, tx.mgr.status, tx.id)
    {
      var rows := ScanRecords(tables[i], tx);
      MoreRows(all, i, tx.snap, tx.mgr.status, tx.id);
      recs := recs + rows;
    }
    assert all[..|tables|] == all;
    ok := journal.Replace(recs);
    tx.Rollback();
  }

  lemma NoRows(s: Snapshot, status: map<TxID, Status>, self: TxID)
    ensures SnapshotRows([], s, status, self) == []
  {}

  lemma MoreRows(all: seq<Contents>, i: nat, s: Snapshot, status: map<TxID, Status>, self: TxID)
    requires i < |all|
    ensures SnapshotRows(all[..i + 1], s, status, self)
            == SnapshotRows(all[..i], s, status, self) + InsertRecords(all[i].name, ScanVersions(all[i].versions, s, status, self))
  {
    hide ScanVersions, InsertRecords;
    assert all[..i + 1][..i] == all[..i];
  }

  /** The records are those of the transition system's replacement of the log. */
  lemma {:induction false} CheckpointIsEngines(e: State, s: Snapshot, self: TxID, order: seq<Name>)
    requires forall i :: 0 <= i < |order| ==> order[i] in e.heaps
    ensures CheckpointRecords(e, s, self, order)
            == SnapshotRows(seq(|order|, i requires 0 <= i < |order| => Contents(order[i], e.heaps[order[i]].versions)), s, e.mgr.status, self)
  {
    hide ScanVersions;
    if order != [] {
      var n := |order| - 1;
      var all := seq(|order|, i requires 0 <= i < |order| => Contents(order[i], e.heaps[order[i]].versions));
      CheckpointIsEngines(e, s, self, order[..n]);
      assert all[..n] == seq(n, i requires 0 <= i < n => Contents(order[..n][i], e.heaps[order[..n][i]].versions));
      assert TableRecords(e, s, self, order[n]) == InsertRecords(order[n], ScanVersions(all[n].versions, s, e.mgr.status, self));
    }
  }

  // ---- recovery ----

  function TableOf(r: Record): Option<Name> {
    match r
    case Insert(t, _, _) => Some(t)
    case Delete(t, _) => Some(t)
    case Missing(t, _, _) => Some(t)
    case Ddl(_) => None
  }

  /** Every record names a table that exists. */
  predicate Resolves(names: set<Name>, recs: seq<Record>) {
    forall i :: 0 <= i < |recs| && TableOf(recs[i]).Some? ==> TableOf(recs[i]).value in names
  }

  function RowsOf(rows: map<Name, Rows>, n: Name): Rows { if n in rows then rows[n] else map[] }

  /** Replays one record into the collected rows. */
  method Apply(names: set<Name>, r: Record, rows: map<Name, Rows>) returns (res: Result<map<Name, Rows>, Failure>)
    ensures res.Ok? <==> Resolves(names, [r])
    ensures res.Ok? ==> forall n :: RowsOf(res.value, n) == ReplayRecord(n, RowsOf(rows, n), r)
  {
    assert [r][0] == r;
    match r {
      case Ddl(_) => return Ok(rows);
      case Missing(t, _, _) =>
        if t !in names { return Err(UnknownTable); }
        return Ok(rows);
      case Insert(t, id, vals) =>
        if t !in names { return Err(UnknownTable); }
        var held := if t in rows then rows[t] else map[];
        return Ok(rows[t := held[id := vals]]);
      case Delete(t, id) =>
        if t !in names { return Err(UnknownTable); }
        if t !in rows { return Ok(rows); }
        return Ok(rows[t := rows[t] - {id}]);
    }
  }

  /** Collects the rows of every table from the whole log, or stops at a record of an unknown table. */
  method Collect(names: set<Name>, log: seq<seq<Record>>) returns (res: Result<map<Name, Rows>, Failure>)
    ensures res.Ok? <==> Resolves(names, Flatten(log))
    ensures res.Ok? ==> forall n :: RowsOf(res.value, n) == Recover(n, log)
  {
    var rows: map<Name, Rows> := map[];
    for i := 0 to |log|
      invariant Resolves(names, Flatten(log[..i]))
      invariant forall n :: RowsOf(rows, n) == Replay(n, map[], Flatten(log[..i]))
    {
      ghost var seen := Flatten(log[..i]);
      FlattenSplit(log, i);
      assert seen + log[i][..0] == seen;
      for j := 0 to |log[i]|
        invariant Resolves(names, seen + log[i][..j])
        invariant forall n :: RowsOf(rows, n) == Replay(n, map[], seen + log[i][..j])
      {
        var out := Apply(names, log[i][j], rows);
        if out.Err? {
          assert Flatten(log)[|seen| + j] == log[i][j];
          return Err(out.error);
        }
        assert seen + log[i][..j + 1] == (seen + log[i][..j]) + [log[i][j]];
        assert (seen + log[i][..j + 1])[..|seen| + j] == seen + log[i][..j];
        assert Resolves(names, [log[i][j]]) && [log[i][j]][0] == log[i][j];
        rows := out.value;
      }
      assert seen + log[i][..|log[i]|] == seen + log[i] == Flatten(log[..i + 1]) by { assert log[..i + 1][..i] == log[..i]; }
    }
    assert log[..|log|] == log;
    return Ok(rows);
  }

  lemma {:induction false} FlattenSplit<T>(log: seq<seq<T>>, i: nat)
    requires i < |log|
    ensures Flatten(log[..i]) + log[i] <= Flatten(log)
  {
    if i == |log| - 1 {
    } else {
      FlattenSplit(log[..|log| - 1], i);
      assert log[..|log| - 1][..i] == log[..i];
    }
  }

  lemma {:induction false} SameIncreasing(a: seq<RowID>, b: seq<RowID>)
    requires Increasing(a) && Increasing(b) && forall x :: x in a <==> x in b
    ensures a == b
  {
    if a == [] {
      assert forall k :: 0 <= k < |b| ==> b[k] in b;
    } else {
      assert a[|a| - 1] in b && b != [] && b[|b| - 1] in a;
      var i :| 0 <= i < |b| && b[i] == a[|a| - 1];
      var j :| 0 <= j < |a| && a[j] == b[|b| - 1];
      assert a[|a| - 1] == b[|b| - 1];
      var a', b' := a[..|a| - 1], b[..|b| - 1];
      forall x ensures x in a' <==> x in b' {
        if x in a' {
          var k :| 0 <= k < |a'| && a'[k] == x;
          assert a[k] in b && a[k] < a[|a| - 1];
        }
        if x in b' {
          var k :| 0 <= k < |b'| && b'[k] == x;
          assert b[k] in a && b[k] < b[|b| - 1];
        }
      }
      SameIncreasing(a', b');
    }
  }

  lemma Nothing(rows: Rows)
    ensures LoadRows(rows, []) == EMPTY_HEAP && Increasing([])
  {}

  lemma PlaceStep(rows: Rows, placed: seq<RowID>, id: RowID)
    requires id in rows && Increasing(placed) && forall x :: x in placed ==> x in rows && x < id
    ensures Increasing(placed + [id])
    ensures LoadRows(rows, placed + [id]) == HeapLoad(LoadRows(rows, placed), BOOT, id, rows[id])
  {
    SnocIncreasing(placed, id);
    assert (placed + [id])[..|placed|] == placed;
  }

  /** Loads the collected rows into an empty heap in ascending order of their ids. */
  method Place(heap: Heap, rows: Rows)
    requires heap.Valid() && heap.Model() == EMPTY_HEAP
    modifies heap
    ensures heap.Valid() && heap.Model() == LoadHeap(rows)
  {
    hide LoadRows, Increasing, HeapLoad, SortedIds, Heap.Valid, Heap.Vers;
    assert LoadRows(rows, []) == EMPTY_HEAP && Increasing([]) by { Nothing(rows); }
    ghost var placed: seq<RowID> := [];
    var todo := rows.Keys;
    while todo != {}
      invariant heap.Valid() && todo <= rows.Keys
      invariant forall x :: x in placed <==> x in rows && x !in todo
      invariant Increasing(placed) && forall x, y :: x in placed && y in todo ==> x < y
      invariant heap.Model() == LoadRows(rows, placed)
      invariant forall v :: v in heap.versions ==> v.id in placed
    {
      var id :| id in todo && forall y :: y in todo ==> id <= y by { assert LeastOf(todo) in todo; }
      heap.Load(BOOT, id, rows[id]);
      assert forall k :: 0 <= k < |heap.versions| - 1 ==> heap.versions[k].id in placed;
      PlaceStep(rows, placed, id);
      placed := placed + [id];
      todo := todo - {id};
    }
    SameIncreasing(placed, SortedIds(rows.Keys));
  }

  ghost function LeastOf(s: set<RowID>): (r: RowID)
    requires s != {}
    ensures r in s && forall x :: x in s ==> r <= x
  {
    var x :| x in s;
    assert forall z :: z in s ==> z == x || z in s - {x};
    if s == {x} then x
    else
      var y := LeastOf(s - {x});
      if x < y then x else y
  }
}
