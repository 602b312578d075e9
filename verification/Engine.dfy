/** The engine as a transition system over the storage, the open transactions and the log. */
module Engine {
  import opened Values
  import opened Storage
  import opened Records

  datatype Isolation = ReadCommitted | RepeatableRead | Serializable

  /** Flushed is the window of Commit between the journal write and the status change. */
  datatype Stage = Running | Flushed | Done

  datatype Control = Control(iso: Isolation, failed: bool, stage: Stage)

  datatype TxState = TxState(ctl: Control, snap: Snapshot, pending: seq<Record>)

  datatype State = State(mgr: Mgr, heaps: map<Name, HeapState>, txs: map<TxID, TxState>,
                         log: seq<seq<Record>>, open: bool, dirty: bool)

  /** What the operating system made of a journal write: the frame is on disk and synced, it is
      not there, or it is there but the sync reported an error. */
  datatype Io = Written | Lost | SyncFailed

  datatype Event =
    | Begin
    | Open(t: TxID, iso: Isolation)
    | NextStatement(t: TxID)
    | InsertRow(t: TxID, n: Name, vals: Row)
    | DeleteRow(t: TxID, n: Name, id: RowID)
    | Fail(t: TxID)
    | Flush(t: TxID, io: Io)
    | FinishCommit(t: TxID)
    | Rollback(t: TxID)
    | Vacuum(n: Name, horizon: TxID)
    | ReplaceLog(t: TxID, order: seq<Name>)
    | Crash

  ghost function Least(s: set<TxID>, default: TxID): (r: TxID)
    ensures r == default || r in s
    ensures r <= default && forall x :: x in s ==> r <= x
  {
    if s == {} then default
    else
      var x :| x in s;
      var rest := Least(s - {x}, default);
      assert forall y :: y in s ==> y == x || y in s - {x};
      if x < rest then x else rest
  }

  ghost function SnapshotOf(m: Mgr): Snapshot {
    Snapshot(Least(m.active, m.next), m.next, m.active)
  }

  /** The versions of a heap keyed by row id; ids are unique within a heap. */
  function ById(vs: seq<Ver>): map<RowID, Ver> {
    if vs == [] then map[]
    else ById(vs[..|vs| - 1])[vs[|vs| - 1].id := vs[|vs| - 1]]
  }

  predicate Ascending(vs: seq<Ver>) {
    forall i, j :: 0 <= i < j < |vs| ==> vs[i].id < vs[j].id
  }

  /** The ids of a set, ascending. */
  ghost function SortedIds(s: set<RowID>): (r: seq<RowID>)
    ensures forall x :: x in r <==> x in s
    ensures Increasing(r)
  {
    if s == {} then []
    else
      var x := Greatest(s);
      var rest := SortedIds(s - {x});
      SnocIncreasing(rest, x);
      rest + [x]
  }

  predicate Increasing(ids: seq<RowID>) {
    forall i, j :: 0 <= i < j < |ids| ==> ids[i] < ids[j]
  }

  lemma SnocIncreasing(ids: seq<RowID>, x: RowID)
    requires Increasing(ids) && forall y :: y in ids ==> y < x
    ensures Increasing(ids + [x])
  {
    forall i, j | 0 <= i < j < |ids + [x]| ensures (ids + [x])[i] < (ids + [x])[j] {
      assert (ids + [x])[i] in ids;
    }
  }

  ghost function Greatest(s: set<RowID>): (r: RowID)
    requires s != {}
    ensures r in s && forall x :: x in s ==> x <= r
  {
    var x :| x in s;
    assert forall z :: z in s ==> z == x || z in s - {x};
    if s == {x} then x
    else
      var y := Greatest(s - {x});
      if x > y then x else y
  }

  const BOOT: TxID := 1

  /** Loading collected rows into an empty heap, ascending by id. */
  ghost function LoadRows(rows: Rows, ids: seq<RowID>): HeapState
    requires forall x :: x in ids ==> x in rows
  {
    if ids == [] then EMPTY_HEAP
    else
      var last := ids[|ids| - 1];
      HeapLoad(LoadRows(rows, ids[..|ids| - 1]), BOOT, last, rows[last])
  }

  ghost function LoadHeap(rows: Rows): HeapState { LoadRows(rows, SortedIds(rows.Keys)) }

  /** The state in which recovery hands the engine over. */
  ghost function Recovered(names: set<Name>, log: seq<seq<Record>>): State {
    State(Finished(Issued(EMPTY_MGR), BOOT, Committed),
          map n | n in names :: LoadHeap(Recover(n, log)),
          map[], log, true, false)
  }

  predicate Statement(e: State, t: TxID) {
    t in e.txs && e.txs[t].ctl.stage == Running && !e.txs[t].ctl.failed
  }

  /** A version a statement may hold: one it scanned, or one it has already deleted. */
  predicate Reaches(e: State, t: TxID, v: Ver)
    requires t in e.txs
  {
    Visible(v, e.txs[t].snap, e.mgr.status, t) || v.xmax == t
  }

  function WithTx(e: State, t: TxID, x: TxState): State { e.(txs := e.txs[t := x]) }

  /** A row change: the heap is written at once, its record is buffered until the commit. */
  function Logged(e: State, t: TxID, r: Record, n: Name, h: HeapState): State
    requires t in e.txs
  {
    e.(txs := e.txs[t := TxState(e.txs[t].ctl, e.txs[t].snap, e.txs[t].pending + [r])], heaps := e.heaps[n := h])
  }

  function Ended(e: State, t: TxID, outcome: Status): State
    requires t in e.txs
  {
    var x := e.txs[t];
    e.(mgr := Finished(e.mgr, t, outcome),
       txs := e.txs[t := TxState(Control(x.ctl.iso, x.ctl.failed, Done), x.snap, [])])
  }

  ghost function TableRecords(e: State, s: Snapshot, self: TxID, n: Name): seq<Record> {
    if n in e.heaps then
      var vs := ScanVersions(e.heaps[n].versions, s, e.mgr.status, self);
      seq(|vs|, i requires 0 <= i < |vs| => Record.Insert(n, vs[i].id, vs[i].vals))
    else []
  }

  ghost function CheckpointRecords(e: State, s: Snapshot, self: TxID, order: seq<Name>): seq<Record> {
    if order == [] then []
    else CheckpointRecords(e, s, self, order[..|order| - 1]) + TableRecords(e, s, self, order[|order| - 1])
  }

  ghost predicate SafeHorizon(e: State, horizon: TxID) {
    forall t :: t in e.txs && e.txs[t].ctl.stage != Done ==> horizon <= e.txs[t].snap.xmin
  }

  /** A flush with nothing to write always succeeds. */
  predicate FlushOk(e: State, t: TxID, io: Io)
    requires t in e.txs
  {
    e.txs[t].pending == [] || (e.open && io == Written)
  }

  /** Whether the frame is in the log afterwards, whatever the caller was told. */
  predicate Lands(e: State, t: TxID, io: Io)
    requires t in e.txs
  {
    e.txs[t].pending != [] && e.open && io != Lost
  }

  function FlushStep(e: State, t: TxID, io: Io): State
    requires t in e.txs
  {
    var x := e.txs[t];
    var ok := FlushOk(e, t, io);
    State(if ok then e.mgr else Finished(e.mgr, t, Aborted),
          e.heaps,
          e.txs[t := TxState(Control(x.ctl.iso, x.ctl.failed, if ok then Flushed else Done), x.snap, [])],
          if Lands(e, t, io) then e.log + [x.pending] else e.log,
          e.open && ok,
          e.dirty || Lands(e, t, io))
  }

  /** The order in which a checkpoint visits the tables. */
  ghost predicate Covers(order: seq<Name>, names: set<Name>) {
    forall n :: n in order <==> n in names
  }

  /** A checkpoint is a repeatable-read transaction that writes nothing. It begins and takes its
      snapshot like any other, and ends by replacing the log with what it sees; transactions that
      commit in between are in the old log and not in the new one. */
  ghost predicate CanReplace(e: State, t: TxID, order: seq<Name>) {
    && Statement(e, t) && e.txs[t].ctl.iso == RepeatableRead && e.txs[t].pending == []
    && Covers(order, e.heaps.Keys)
  }

  ghost function Replaced(e: State, t: TxID, order: seq<Name>): State
    requires t in e.txs
  {
    var recs := CheckpointRecords(e, e.txs[t].snap, t, order);
    if e.dirty then e.(log := if recs == [] then [] else [recs], dirty := !e.open) else e
  }

  /** A table without the versions dead to a horizon, safe or not. */
  function Vacuumed(e: State, n: Name, horizon: TxID): State
    requires n in e.heaps
  {
    e.(heaps := e.heaps[n := HeapState(VacuumVersions(e.heaps[n].versions, e.mgr.status, horizon), e.heaps[n].nextRow)])
  }

  /** One atomic step. An event whose guard does not hold leaves the state as it is. */
  ghost function Step(e: State, ev: Event): State {
    match ev
    case Begin => e.(mgr := Issued(e.mgr))
    case Open(t, iso) =>
      if Outcome(e.mgr.status, t) == InProgress && t !in e.txs then
        WithTx(e, t, TxState(Control(iso, false, Running), SnapshotOf(e.mgr), []))
      else e
    case NextStatement(t) =>
      if Statement(e, t) && e.txs[t].ctl.iso == ReadCommitted then
        WithTx(e, t, TxState(e.txs[t].ctl, SnapshotOf(e.mgr), e.txs[t].pending))
      else e
    case InsertRow(t, n, vals) =>
      if Statement(e, t) && n in e.heaps then
        var h := e.heaps[n];
        Logged(e, t, Record.Insert(n, h.nextRow, vals), n, HeapInsert(h, t, vals))
      else e
    case DeleteRow(t, n, id) =>
      if Statement(e, t) && n in e.heaps && id in ById(e.heaps[n].versions)
         && Reaches(e, t, ById(e.heaps[n].versions)[id])
         && !DeleteConflicts(ById(e.heaps[n].versions)[id], e.mgr.status, t) then
        var h := e.heaps[n];
        Logged(e, t, Record.Delete(n, id), n, HeapState(Stamp(h.versions, id, t), h.nextRow))
      else e
    case Fail(t) =>
      if t in e.txs && e.txs[t].ctl.stage == Running then
        WithTx(e, t, TxState(Control(e.txs[t].ctl.iso, true, Running), e.txs[t].snap, e.txs[t].pending))
      else e
    case Flush(t, io) => if Statement(e, t) then FlushStep(e, t, io) else e
    case FinishCommit(t) =>
      if t in e.txs && e.txs[t].ctl.stage == Flushed then Ended(e, t, Committed) else e
    case Rollback(t) =>
      if t in e.txs && e.txs[t].ctl.stage == Running then Ended(e, t, Aborted) else e
    case Vacuum(n, horizon) =>
      if n in e.heaps && SafeHorizon(e, horizon) then
        Vacuumed(e, n, horizon)
      else e
    case ReplaceLog(t, order) => if CanReplace(e, t, order) then Replaced(e, t, order) else e
    case Crash => Recovered(e.heaps.Keys, e.log)
  }

  ghost function Run(e: State, evs: seq<Event>): State {
    if evs == [] then e else Step(Run(e, evs[..|evs| - 1]), evs[|evs| - 1])
  }

  /** What a transaction's scan of a table returns. */
  function Scan(e: State, t: TxID, n: Name): seq<Ver>
    requires t in e.txs && n in e.heaps
  {
    ScanVersions(e.heaps[n].versions, e.txs[t].snap, e.mgr.status, t)
  }

  // ---- ById under the heap's operations ----

  lemma {:induction false} ByIdHas(vs: seq<Ver>, i: nat)
    requires Ascending(vs) && i < |vs|
    ensures vs[i].id in ById(vs) && ById(vs)[vs[i].id] == vs[i]
  {
    if i < |vs| - 1 { ByIdHas(vs[..|vs| - 1], i); }
  }

  lemma {:induction false} ByIdKey(vs: seq<Ver>, id: RowID)
    requires id in ById(vs)
    ensures exists i :: 0 <= i < |vs| && vs[i].id == id && ById(vs)[id] == vs[i]
  {
    if vs[|vs| - 1].id != id {
      ByIdKey(vs[..|vs| - 1], id);
      var i :| 0 <= i < |vs| - 1 && vs[..|vs| - 1][i].id == id && ById(vs[..|vs| - 1])[id] == vs[..|vs| - 1][i];
      assert vs[i].id == id;
    }
  }

  lemma ByIdSnoc(vs: seq<Ver>, v: Ver)
    ensures ById(vs + [v]) == ById(vs)[v.id := v]
  {
    assert (vs + [v])[..|vs|] == vs;
  }

  lemma {:induction false} ByIdStamp(vs: seq<Ver>, id: RowID, t: TxID)
    requires id in ById(vs)
    ensures ById(Stamp(vs, id, t)) == ById(vs)[id := ById(vs)[id].(xmax := t)]
    ensures Ascending(vs) ==> Ascending(Stamp(vs, id, t))
  {
    StampKeys(vs, id, t);
    forall k | k in ById(vs)
      ensures ById(Stamp(vs, id, t))[k] == if k == id then ById(vs)[k].(xmax := t) else ById(vs)[k]
    {
      StampAt(vs, id, t, k);
    }
  }

  lemma {:induction false} StampKeys(vs: seq<Ver>, id: RowID, t: TxID)
    ensures ById(Stamp(vs, id, t)).Keys == ById(vs).Keys
  {
    if vs != [] {
      var w := vs[..|vs| - 1];
      assert Stamp(vs, id, t)[..|vs| - 1] == Stamp(w, id, t);
      StampKeys(w, id, t);
    }
  }

  lemma {:induction false} StampAt(vs: seq<Ver>, id: RowID, t: TxID, k: RowID)
    requires k in ById(vs)
    ensures k in ById(Stamp(vs, id, t))
    ensures ById(Stamp(vs, id, t))[k] == if k == id then ById(vs)[k].(xmax := t) else ById(vs)[k]
  {
    StampKeys(vs, id, t);
    var w := vs[..|vs| - 1];
    assert Stamp(vs, id, t)[..|vs| - 1] == Stamp(w, id, t);
    if vs[|vs| - 1].id != k { StampAt(w, id, t, k); } else { KeyIsId(vs, k); }
  }

  lemma {:induction false} KeyIsId(vs: seq<Ver>, k: RowID)
    requires k in ById(vs)
    ensures ById(vs)[k].id == k
  {
    if vs[|vs| - 1].id != k { KeyIsId(vs[..|vs| - 1], k); }
  }

  lemma SnocAscending(out: seq<Ver>, last: Ver)
    requires Ascending(out) && forall k :: k in ById(out) ==> k < last.id
    ensures Ascending(out + [last])
  {
    forall i | 0 <= i < |out| ensures out[i].id < last.id {
      ByIdHas(out, i);
    }
  }

  lemma BelowLast(w: seq<Ver>, last: Ver)
    requires Ascending(w + [last])
    ensures Ascending(w) && forall k :: k in ById(w) ==> k < last.id
  {
    var vs := w + [last];
    forall i, j | 0 <= i < j < |w| ensures w[i].id < w[j].id { assert vs[i].id < vs[j].id; }
    forall k | k in ById(w) ensures k < last.id {
      ByIdKey(w, k);
      var i :| 0 <= i < |w| && w[i].id == k;
      assert vs[i].id < vs[|w|].id;
    }
  }

  lemma {:induction false} VacuumSubseq(vs: seq<Ver>, status: map<TxID, Status>, horizon: TxID)
    requires Ascending(vs)
    ensures var out := VacuumVersions(vs, status, horizon);
            && Ascending(out)
            && (forall k :: k in ById(out) <==> k in ById(vs) && !DeadTo(ById(vs)[k], status, horizon))
            && (forall k :: k in ById(out) ==> ById(out)[k] == ById(vs)[k])
  {
    hide DeadTo;
    if vs != [] {
      var w, last := vs[..|vs| - 1], vs[|vs| - 1];
      var out := VacuumVersions(w, status, horizon);
      assert vs == w + [last];
      VacuumSubseq(w, status, horizon) by { BelowLast(w, last); }
      BelowLast(w, last);
      ByIdSnoc(w, last);
      if !DeadTo(last, status, horizon) {
        assert VacuumVersions(vs, status, horizon) == out + [last];
        ByIdSnoc(out, last);
        SnocAscending(out, last);
      }
    }
  }

  /** Vacuum keeps a version exactly when its creator has not aborted and no transaction below the horizon
      has deleted it and committed. An id nothing is known of counts as aborted. */
  lemma {:induction false} VacuumKeeps(vs: seq<Ver>, status: map<TxID, Status>, horizon: TxID, v: Ver)
    ensures v in VacuumVersions(vs, status, horizon) <==>
            && v in vs && v.xmin in status && status[v.xmin] != Aborted
            && (v.xmax == 0 || v.xmax >= horizon || v.xmax !in status || status[v.xmax] != Committed)
  {
    if vs != [] {
      var w, last := vs[..|vs| - 1], vs[|vs| - 1];
      assert vs == w + [last];
      VacuumKeeps(w, status, horizon, v);
    }
  }

  lemma {:induction false} ScanSubseq(vs: seq<Ver>, s: Snapshot, status: map<TxID, Status>, self: TxID)
    requires Ascending(vs)
    ensures var out := ScanVersions(vs, s, status, self);
            && Ascending(out)
            && (forall k :: k in ById(out) <==> k in ById(vs) && Visible(ById(vs)[k], s, status, self))
            && (forall k :: k in ById(out) ==> ById(out)[k] == ById(vs)[k])
  {
    hide Visible;
    if vs != [] {
      var w, last := vs[..|vs| - 1], vs[|vs| - 1];
      var out := ScanVersions(w, s, status, self);
      assert vs == w + [last];
      ScanSubseq(w, s, status, self) by { BelowLast(w, last); }
      BelowLast(w, last);
      ByIdSnoc(w, last);
      if Visible(last, s, status, self) {
        assert ScanVersions(vs, s, status, self) == out + [last];
        ByIdSnoc(out, last);
        SnocAscending(out, last);
      }
    }
  }

  /** Recovery's heap for `ids`: ascending ids, every version committed by the boot transaction. */
  ghost predicate LoadedFrom(h: HeapState, rows: Rows, ids: seq<RowID>)
    requires forall x :: x in ids ==> x in rows
  {
    && Ascending(h.versions) && 1 <= h.nextRow
    && (forall k :: k in ById(h.versions) <==> k in ids)
    && (forall k :: k in ById(h.versions) ==> k < h.nextRow && ById(h.versions)[k] == Ver(k, BOOT, INVALID_TX, rows[k]))
  }

  lemma LoadStep(h: HeapState, rows: Rows, w: seq<RowID>, last: RowID)
    requires (forall x :: x in w ==> x in rows && x < last) && last in rows
    requires LoadedFrom(h, rows, w)
    ensures LoadedFrom(HeapLoad(h, BOOT, last, rows[last]), rows, w + [last])
  {
    var v := Ver(last, BOOT, INVALID_TX, rows[last]);
    ByIdSnoc(h.versions, v);
    SnocAscending(h.versions, v);
  }

  lemma {:induction false} LoadRowsShape(rows: Rows, ids: seq<RowID>)
    requires Increasing(ids) && forall x :: x in ids ==> x in rows
    ensures LoadedFrom(LoadRows(rows, ids), rows, ids)
  {
    if ids != [] {
      var w, last := ids[..|ids| - 1], ids[|ids| - 1];
      assert ids == w + [last];
      LoadRowsShape(rows, w);
      forall x | x in w ensures x < last {
        var i :| 0 <= i < |w| && w[i] == x;
        assert ids[i] < ids[|w|];
      }
      LoadStep(LoadRows(rows, w), rows, w, last);
    }
  }
}
