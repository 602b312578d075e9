/** The versioned engine refines the snapshot-isolation database, across crashes. */
module Refinement {
  import opened Values
  import opened Storage
  import opened Records
  import opened Engine
  import DB = SnapshotDb

  // ---- the simulation relation ----

  /** What stays true of a snapshot while its transaction `t` lives. */
  ghost predicate SnapOk(s: Snapshot, m: Mgr, t: TxID) {
    && s.xmax <= m.next && t in s.active
    && (forall id :: id in s.active ==> s.xmin <= id < s.xmax)
    && (forall id :: 1 <= id < s.xmax && id !in s.active ==> Outcome(m.status, id) != InProgress)
  }

  ghost predicate LiveTx(txs: map<TxID, TxState>, t: TxID) { t in txs && txs[t].ctl.stage != Done }

  ghost predicate TxRel(m: Mgr, x: TxState, t: TxID, y: DB.Tx) {
    && x.ctl == y.ctl && t in m.status && m.status[t] == y.outcome
    && (y.outcome == InProgress <==> x.ctl.stage != Done)
    && (x.ctl.stage == Running ==> (y.wrote <==> x.pending != []))
    && (x.ctl.stage != Done ==> SnapOk(x.snap, m, t))
  }

  ghost predicate ControlRel(e: State, a: DB.Db) {
    && ValidMgr(e.mgr) && a.next == e.mgr.next && a.open == e.open && a.dirty == e.dirty
    && e.heaps.Keys == a.tabs.Keys
    && (forall t :: t in a.begun <==> Outcome(e.mgr.status, t) == InProgress && t !in e.txs)
    && TxsRel(e.mgr, e.txs, a.txs)
  }

  ghost predicate TxsRel(m: Mgr, txs: map<TxID, TxState>, atxs: map<TxID, DB.Tx>) {
    txs.Keys == atxs.Keys && forall t :: t in txs ==> TxRel(m, txs[t], t, atxs[t])
  }

  predicate LiveNow(v: Ver, status: map<TxID, Status>) {
    Outcome(status, v.xmin) == Committed && Outcome(status, v.xmax) != Committed
  }

  predicate InSnap(v: Ver, s: Snapshot, status: map<TxID, Status>) {
    CommittedIn(s, status, v.xmin) && !CommittedIn(s, status, v.xmax)
  }

  ghost predicate CommittedRel(rows: Rows, h: map<RowID, Ver>, status: map<TxID, Status>) {
    && (forall k :: k in rows <==> k in h && LiveNow(h[k], status))
    && (forall k :: k in rows ==> rows[k] == h[k].vals)
  }

  ghost predicate SnapRel(rows: Rows, h: map<RowID, Ver>, s: Snapshot, status: map<TxID, Status>) {
    && (forall k :: k in rows <==> k in h && InSnap(h[k], s, status))
    && (forall k :: k in rows ==> rows[k] == h[k].vals)
  }

  ghost predicate InsRel(rows: Rows, h: map<RowID, Ver>, t: TxID) {
    && (forall k :: k in rows <==> k in h && h[k].xmin == t)
    && (forall k :: k in rows ==> rows[k] == h[k].vals)
  }

  /** Every version is below the next id, was written by an issued transaction, and was deleted
      either by its own writer or after its writer had committed. */
  ghost predicate VersionsOk(h: map<RowID, Ver>, nextRow: RowID, m: Mgr, txs: set<TxID>) {
    forall k :: k in h ==> VersionOk(h[k], k, nextRow, m, txs)
  }

  ghost predicate VersionOk(v: Ver, k: RowID, nextRow: RowID, m: Mgr, txs: set<TxID>) {
    && k < nextRow && v.id == k && 1 <= v.xmin < m.next
    && (v.xmin in txs || Outcome(m.status, v.xmin) == Committed)
    && (v.xmax == INVALID_TX || v.xmax in txs)
    && (v.xmax != INVALID_TX && v.xmax != v.xmin ==> Outcome(m.status, v.xmin) == Committed)
  }

  ghost predicate DelRel(h: map<RowID, Ver>, txs: map<TxID, DB.Tx>, tab: DB.Tab) {
    forall u, k :: u in txs && txs[u].outcome != Aborted && k in h ==> (k in DB.Del(tab, u) <==> h[k].xmax == u)
  }

  ghost predicate Deletes(txs: map<TxID, DB.Tx>, tab: DB.Tab, u: TxID, k: RowID) {
    u in txs && txs[u].outcome != Aborted && k in DB.Del(tab, u)
  }

  /** At most one transaction that has not aborted deletes a row. */
  ghost predicate OneDeleter(txs: map<TxID, DB.Tx>, tab: DB.Tab) {
    forall u, w, k :: Deletes(txs, tab, u, k) && Deletes(txs, tab, w, k) ==> u == w
  }

  ghost predicate IdsBelow(txs: map<TxID, DB.Tx>, tab: DB.Tab) {
    forall u, k :: u in txs && k in DB.Del(tab, u) ==> k < tab.nextRow
  }

  /** Every live transaction's snapshot rows and own inserts, read off the versions. */
  ghost predicate ReadsRel(m: Mgr, txs: map<TxID, TxState>, h: map<RowID, Ver>, tab: DB.Tab) {
    forall t :: LiveTx(txs, t) ==> SnapRel(DB.Snap(tab, t), h, txs[t].snap, m.status) && InsRel(DB.Ins(tab, t), h, t)
  }

  ghost predicate DelsRel(h: map<RowID, Ver>, atxs: map<TxID, DB.Tx>, tab: DB.Tab) {
    DelRel(h, atxs, tab) && OneDeleter(atxs, tab) && IdsBelow(atxs, tab)
  }

  /** What a live transaction deleted is still in the heap. */
  ghost predicate HeldRel(txs: map<TxID, TxState>, h: map<RowID, Ver>, tab: DB.Tab) {
    forall t, k :: LiveTx(txs, t) && k in DB.Del(tab, t) ==> k in h
  }

  /** One table's versions, by id, against its rows, given the transactions on both sides. */
  ghost predicate RowsRel(m: Mgr, txs: map<TxID, TxState>, h: map<RowID, Ver>, atxs: map<TxID, DB.Tx>, tab: DB.Tab) {
    && VersionsOk(h, tab.nextRow, m, txs.Keys)
    && CommittedRel(tab.committed, h, m.status)
    && ReadsRel(m, txs, h, tab) && HeldRel(txs, h, tab)
    && DelsRel(h, atxs, tab)
  }

  ghost predicate HeapRel(m: Mgr, txs: map<TxID, TxState>, hs: HeapState, atxs: map<TxID, DB.Tx>, tab: DB.Tab) {
    && Ascending(hs.versions) && hs.nextRow == tab.nextRow
    && RowsRel(m, txs, ById(hs.versions), atxs, tab)
  }

  /** Replaying a transaction's buffer over any rows inserts and deletes exactly what it did. */
  ghost predicate PendingRel(n: Name, pending: seq<Record>, ins: Rows, del: set<RowID>) {
    forall m: Rows :: Replay(n, m, pending) == DB.Changed(m, ins, del)
  }

  ghost predicate LogRel(log: seq<seq<Record>>, txs: map<TxID, TxState>, n: Name, tab: DB.Tab) {
    && Recover(n, log) == tab.durable
    && (forall t :: t in txs && txs[t].ctl.stage == Running ==>
          PendingRel(n, txs[t].pending, DB.Ins(tab, t), DB.Del(tab, t)))
  }

  ghost predicate TableRel(e: State, a: DB.Db, n: Name) {
    && n in e.heaps && n in a.tabs
    && HeapRel(e.mgr, e.txs, e.heaps[n], a.txs, a.tabs[n])
    && LogRel(e.log, e.txs, n, a.tabs[n])
  }

  ghost predicate Related(e: State, a: DB.Db) {
    ControlRel(e, a) && forall n :: n in e.heaps ==> TableRel(e, a, n)
  }

  // ---- snapshots do not see later commits ----

  lemma SnapshotIsOk(m: Mgr, t: TxID)
    requires ValidMgr(m) && t in m.active
    ensures SnapOk(SnapshotOf(m), m, t)
  {}

  /** A snapshot judges every id as the transactions stood when it was taken. */
  lemma CommittedInFixed(s: Snapshot, m: Mgr, t: TxID, id: TxID)
    requires ValidMgr(m) && SnapOk(s, m, t)
    ensures CommittedIn(s, Issued(m).status, id) == CommittedIn(s, m.status, id)
    ensures forall u, o :: o != InProgress ==> CommittedIn(s, Finished(m, u, o).status, id) == CommittedIn(s, m.status, id)
  {}

  /** A fresh snapshot sees exactly what is committed now. */
  lemma FreshSnapshot(m: Mgr, id: TxID)
    requires ValidMgr(m)
    ensures CommittedIn(SnapshotOf(m), m.status, id) <==> Outcome(m.status, id) == Committed
  {}

  lemma FreshSnapRel(m: Mgr, rows: Rows, h: map<RowID, Ver>)
    requires ValidMgr(m) && CommittedRel(rows, h, m.status)
    ensures SnapRel(rows, h, SnapshotOf(m), m.status)
  {
    forall k | k in h ensures InSnap(h[k], SnapshotOf(m), m.status) == LiveNow(h[k], m.status) {
      FreshSnapshot(m, h[k].xmin);
      FreshSnapshot(m, h[k].xmax);
    }
  }

  // ---- one table under each kind of change ----

  /** Moving the manager on keeps what live snapshots see. */
  lemma ReadsMove(m: Mgr, m': Mgr, txs: map<TxID, TxState>, txs': map<TxID, TxState>, atxs: map<TxID, DB.Tx>,
                  h: map<RowID, Ver>, tab: DB.Tab, tab': DB.Tab)
    requires ValidMgr(m) && TxsRel(m, txs, atxs) && ReadsRel(m, txs, h, tab)
    requires m' == Issued(m) || exists u, o :: o != InProgress && m' == Finished(m, u, o)
    requires forall t :: LiveTx(txs', t) ==> LiveTx(txs, t) && txs'[t].snap == txs[t].snap
    requires tab'.snap == tab.snap && tab'.ins == tab.ins
    ensures ReadsRel(m', txs', h, tab')
  {
    forall t | LiveTx(txs', t) ensures SnapRel(DB.Snap(tab', t), h, txs'[t].snap, m'.status) && InsRel(DB.Ins(tab', t), h, t) {
      assert TxRel(m, txs[t], t, atxs[t]);
      forall id ensures CommittedIn(txs[t].snap, m'.status, id) == CommittedIn(txs[t].snap, m.status, id) {
        CommittedInFixed(txs[t].snap, m, t, id);
      }
      assert SnapRel(DB.Snap(tab, t), h, txs[t].snap, m.status) && InsRel(DB.Ins(tab, t), h, t);
    }
  }

  lemma HeldMove(txs: map<TxID, TxState>, txs': map<TxID, TxState>, h: map<RowID, Ver>, h': map<RowID, Ver>, tab: DB.Tab, tab': DB.Tab)
    requires HeldRel(txs, h, tab) && tab'.del == tab.del
    requires forall t :: LiveTx(txs', t) ==> LiveTx(txs, t)
    requires forall k :: k in h ==> k in h'
    ensures HeldRel(txs', h', tab')
  {
    forall t, k | LiveTx(txs', t) && k in DB.Del(tab', t) ensures k in h' {
      assert LiveTx(txs, t) && k in DB.Del(tab, t);
    }
  }

  lemma RowsBegin(m: Mgr, txs: map<TxID, TxState>, h: map<RowID, Ver>, atxs: map<TxID, DB.Tx>, tab: DB.Tab)
    requires ValidMgr(m) && TxsRel(m, txs, atxs) && RowsRel(m, txs, h, atxs, tab)
    ensures RowsRel(Issued(m), txs, h, atxs, tab)
  {
    ReadsMove(m, Issued(m), txs, txs, atxs, h, tab, tab);
    forall k | k in h ensures VersionOk(h[k], k, tab.nextRow, Issued(m), txs.Keys) {
      assert VersionOk(h[k], k, tab.nextRow, m, txs.Keys);
    }
  }

  /** A commit adds the committer's rows and takes away the ones it deleted; an abort does neither. */
  lemma CommittedEnd(m: Mgr, txs: set<TxID>, h: map<RowID, Ver>, nextRow: RowID, t: TxID, o: Status,
                     rows: Rows, ins: Rows, del: set<RowID>)
    requires CommittedRel(rows, h, m.status) && InsRel(ins, h, t) && VersionsOk(h, nextRow, m, txs)
    requires forall k :: k in h ==> (k in del <==> h[k].xmax == t)
    requires t in m.status && m.status[t] == InProgress && o != InProgress && INVALID_TX !in m.status
    ensures CommittedRel(if o == Committed then DB.Changed(rows, ins, del) else rows, h, Finished(m, t, o).status)
  {
    var rows' := if o == Committed then DB.Changed(rows, ins, del) else rows;
    forall k ensures k in rows' <==> k in h && LiveNow(h[k], Finished(m, t, o).status) {
      if k in h { assert VersionOk(h[k], k, nextRow, m, txs); }
    }
  }

  lemma DelsEnd(h: map<RowID, Ver>, atxs: map<TxID, DB.Tx>, atxs': map<TxID, DB.Tx>, tab: DB.Tab, tab': DB.Tab)
    requires DelsRel(h, atxs, tab)
    requires forall u :: u in atxs' && atxs'[u].outcome != Aborted ==> u in atxs && atxs[u].outcome != Aborted
    requires atxs'.Keys == atxs.Keys && tab'.del == tab.del && tab'.nextRow == tab.nextRow
    ensures DelsRel(h, atxs', tab')
  {
    forall u, w, k | Deletes(atxs', tab', u, k) && Deletes(atxs', tab', w, k) ensures u == w {
      assert Deletes(atxs, tab, u, k) && Deletes(atxs, tab, w, k);
    }
    forall u, k | u in atxs' && k in DB.Del(tab', u) ensures k < tab'.nextRow {
      assert k in DB.Del(tab, u);
    }
  }

  /** Ending `t` one way or the other, with the abstract rows moved accordingly. */
  lemma RowsEnd(m: Mgr, txs: map<TxID, TxState>, h: map<RowID, Ver>, atxs: map<TxID, DB.Tx>, tab: DB.Tab,
                t: TxID, o: Status, txs': map<TxID, TxState>, atxs': map<TxID, DB.Tx>, tab': DB.Tab)
    requires ValidMgr(m) && TxsRel(m, txs, atxs) && RowsRel(m, txs, h, atxs, tab)
    requires LiveTx(txs, t) && o != InProgress
    requires txs'.Keys == txs.Keys && !LiveTx(txs', t) && (forall u :: u in txs && u != t ==> txs'[u] == txs[u])
    requires atxs'.Keys == atxs.Keys && atxs'[t].outcome == o
    requires forall u :: u in atxs && u != t ==> atxs'[u].outcome == atxs[u].outcome
    requires tab'.snap == tab.snap && tab'.ins == tab.ins && tab'.del == tab.del && tab'.nextRow == tab.nextRow
    requires tab'.committed == if o == Committed then DB.Changed(tab.committed, DB.Ins(tab, t), DB.Del(tab, t)) else tab.committed
    ensures RowsRel(Finished(m, t, o), txs', h, atxs', tab')
  {
    var m' := Finished(m, t, o);
    assert TxRel(m, txs[t], t, atxs[t]);
    assert InsRel(DB.Ins(tab, t), h, t);
    ReadsMove(m, m', txs, txs', atxs, h, tab, tab');
    HeldMove(txs, txs', h, h, tab, tab');
    forall k | k in h ensures VersionOk(h[k], k, tab.nextRow, m', txs'.Keys) {
      assert VersionOk(h[k], k, tab.nextRow, m, txs.Keys);
    }
    assert VersionsOk(h, tab.nextRow, m', txs'.Keys);
    CommittedEnd(m, txs.Keys, h, tab.nextRow, t, o, tab.committed, DB.Ins(tab, t), DB.Del(tab, t));
    DelsEnd(h, atxs, atxs', tab, tab');
  }

  lemma ReadsSnapshot(m: Mgr, txs: map<TxID, TxState>, h: map<RowID, Ver>, tab: DB.Tab, t: TxID, x: TxState, tab': DB.Tab)
    requires ValidMgr(m) && CommittedRel(tab.committed, h, m.status) && ReadsRel(m, txs, h, tab)
    requires x.snap == SnapshotOf(m)
    requires tab'.snap == tab.snap[t := tab.committed]
    requires if LiveTx(txs, t) then tab'.ins == tab.ins
             else tab'.ins == tab.ins[t := map[]] && forall k :: k in h ==> h[k].xmin != t
    ensures ReadsRel(m, txs[t := x], h, tab')
  {
    var txs' := txs[t := x];
    forall u | LiveTx(txs', u) ensures SnapRel(DB.Snap(tab', u), h, txs'[u].snap, m.status) && InsRel(DB.Ins(tab', u), h, u) {
      if u == t {
        FreshSnapRel(m, tab.committed, h);
        assert LiveTx(txs, t) ==> InsRel(DB.Ins(tab, t), h, t);
      } else {
        assert LiveTx(txs, u);
      }
    }
  }

  lemma DelsSnapshot(h: map<RowID, Ver>, atxs: map<TxID, DB.Tx>, tab: DB.Tab, t: TxID, y: DB.Tx, tab': DB.Tab)
    requires DelsRel(h, atxs, tab) && tab'.nextRow == tab.nextRow && y.outcome == InProgress
    requires if t in atxs then tab'.del == tab.del && atxs[t].outcome == InProgress
             else tab'.del == tab.del[t := {}] && forall k :: k in h ==> h[k].xmax != t
    ensures DelsRel(h, atxs[t := y], tab')
  {
    forall u ensures DB.Del(tab', u) == if u == t && t !in atxs then {} else DB.Del(tab, u) {}
    var atxs' := atxs[t := y];
    forall u, w, k | Deletes(atxs', tab', u, k) && Deletes(atxs', tab', w, k) ensures u == w {
      assert Deletes(atxs, tab, u, k) && Deletes(atxs, tab, w, k);
    }
    forall u, k | u in atxs' && k in DB.Del(tab', u) ensures k < tab'.nextRow {
      assert k in DB.Del(tab, u);
    }
  }

  lemma VersionsMore(h: map<RowID, Ver>, nextRow: RowID, m: Mgr, txs: set<TxID>, txs': set<TxID>)
    requires VersionsOk(h, nextRow, m, txs) && txs <= txs'
    ensures VersionsOk(h, nextRow, m, txs')
  {
    forall k | k in h ensures VersionOk(h[k], k, nextRow, m, txs') {
      assert VersionOk(h[k], k, nextRow, m, txs);
    }
  }

  /** A transaction taking a (first or fresh) snapshot now. */
  lemma RowsSnapshot(m: Mgr, txs: map<TxID, TxState>, h: map<RowID, Ver>, atxs: map<TxID, DB.Tx>, tab: DB.Tab,
                     t: TxID, x: TxState, y: DB.Tx, tab': DB.Tab)
    requires ValidMgr(m) && TxsRel(m, txs, atxs) && RowsRel(m, txs, h, atxs, tab)
    requires t in m.active && x.snap == SnapshotOf(m) && y.outcome == InProgress
    requires tab'.snap == tab.snap[t := tab.committed] && tab'.nextRow == tab.nextRow && tab'.committed == tab.committed
    requires if t in txs then tab'.ins == tab.ins && tab'.del == tab.del
             else tab'.ins == tab.ins[t := map[]] && tab'.del == tab.del[t := {}]
    requires t !in txs ==> forall k :: k in h ==> h[k].xmin != t
    ensures RowsRel(m, txs[t := x], h, atxs[t := y], tab')
  {
    VersionsMore(h, tab.nextRow, m, txs.Keys, txs[t := x].Keys);
    if t in txs { assert TxRel(m, txs[t], t, atxs[t]); }
    ReadsSnapshot(m, txs, h, tab, t, x, tab');
    if t !in txs {
      forall k | k in h ensures h[k].xmax != t { assert VersionOk(h[k], k, tab.nextRow, m, txs.Keys); }
    }
    DelsSnapshot(h, atxs, tab, t, y, tab');
    HeldSnapshot(txs, h, tab, t, x, tab');
  }

  lemma HeldSnapshot(txs: map<TxID, TxState>, h: map<RowID, Ver>, tab: DB.Tab, t: TxID, x: TxState, tab': DB.Tab)
    requires HeldRel(txs, h, tab)
    requires if LiveTx(txs, t) then tab'.del == tab.del else tab'.del == tab.del[t := {}]
    ensures HeldRel(txs[t := x], h, tab')
  {
    var txs' := txs[t := x];
    forall u, k | LiveTx(txs', u) && k in DB.Del(tab', u) ensures k in h {
      assert LiveTx(txs, u) && k in DB.Del(tab, u);
    }
  }

  lemma VersionsInsert(h: map<RowID, Ver>, v: Ver, nextRow: RowID, m: Mgr, txs: set<TxID>)
    requires VersionsOk(h, nextRow, m, txs) && v.id == nextRow && 1 <= v.xmin < m.next && v.xmin in txs && v.xmax == INVALID_TX
    ensures nextRow !in h && VersionsOk(h[nextRow := v], nextRow + 1, m, txs)
  {
    assert forall k :: k in h ==> VersionOk(h[k], k, nextRow, m, txs);
    var h' := h[nextRow := v];
    forall k | k in h' ensures VersionOk(h'[k], k, nextRow + 1, m, txs) {
      assert k in h ==> VersionOk(h[k], k, nextRow, m, txs);
    }
  }

  lemma SnapInsert(rows: Rows, h: map<RowID, Ver>, v: Ver, s: Snapshot, status: map<TxID, Status>)
    requires SnapRel(rows, h, s, status) && v.id !in h && Outcome(status, v.xmin) == InProgress
    ensures SnapRel(rows, h[v.id := v], s, status)
  {}

  lemma CommittedInsert(rows: Rows, h: map<RowID, Ver>, v: Ver, status: map<TxID, Status>)
    requires CommittedRel(rows, h, status) && v.id !in h && Outcome(status, v.xmin) == InProgress
    ensures CommittedRel(rows, h[v.id := v], status)
  {}

  lemma InsInsert(rows: Rows, h: map<RowID, Ver>, v: Ver, u: TxID)
    requires InsRel(rows, h, u) && v.id !in h
    ensures InsRel(if u == v.xmin then DB.With(rows, v.id, v.vals) else rows, h[v.id := v], u)
  {}

  lemma ReadsInsert(m: Mgr, txs: map<TxID, TxState>, txs': map<TxID, TxState>, h: map<RowID, Ver>, v: Ver,
                    tab: DB.Tab, tab': DB.Tab)
    requires ReadsRel(m, txs, h, tab) && v.id !in h && Outcome(m.status, v.xmin) == InProgress
    requires forall u :: LiveTx(txs', u) ==> LiveTx(txs, u) && txs'[u].snap == txs[u].snap
    requires tab'.snap == tab.snap && tab'.ins == tab.ins[v.xmin := DB.With(DB.Ins(tab, v.xmin), v.id, v.vals)]
    ensures ReadsRel(m, txs', h[v.id := v], tab')
  {
    var h' := h[v.id := v];
    forall u | LiveTx(txs', u) ensures SnapRel(DB.Snap(tab', u), h', txs'[u].snap, m.status) && InsRel(DB.Ins(tab', u), h', u) {
      assert LiveTx(txs, u);
      SnapInsert(DB.Snap(tab, u), h, v, txs[u].snap, m.status);
      InsInsert(DB.Ins(tab, u), h, v, u);
    }
  }

  lemma DelsInsert(h: map<RowID, Ver>, v: Ver, atxs: map<TxID, DB.Tx>, atxs': map<TxID, DB.Tx>, tab: DB.Tab, tab': DB.Tab)
    requires DelsRel(h, atxs, tab) && v.id !in h && v.id == tab.nextRow && v.xmax == INVALID_TX && INVALID_TX !in atxs
    requires atxs'.Keys == atxs.Keys && forall u :: u in atxs ==> atxs'[u].outcome == atxs[u].outcome
    requires tab'.del == tab.del && tab'.nextRow == tab.nextRow + 1
    ensures DelsRel(h[v.id := v], atxs', tab')
  {
    forall u ensures DB.Del(tab', u) == DB.Del(tab, u) {}
    forall u, w, k | Deletes(atxs', tab', u, k) && Deletes(atxs', tab', w, k) ensures u == w {
      assert Deletes(atxs, tab, u, k) && Deletes(atxs, tab, w, k);
    }
    forall u, k | u in atxs' && k in DB.Del(tab', u) ensures k < tab'.nextRow {
      assert k in DB.Del(tab, u);
    }
  }

  lemma RowsInsert(m: Mgr, txs: map<TxID, TxState>, h: map<RowID, Ver>, atxs: map<TxID, DB.Tx>, tab: DB.Tab,
                      t: TxID, vals: Row, txs': map<TxID, TxState>, atxs': map<TxID, DB.Tx>, tab': DB.Tab)
    requires ValidMgr(m) && TxsRel(m, txs, atxs) && RowsRel(m, txs, h, atxs, tab) && LiveTx(txs, t)
    requires txs'.Keys == txs.Keys && forall u :: u in txs ==> txs'[u].snap == txs[u].snap && txs'[u].ctl == txs[u].ctl
    requires atxs'.Keys == atxs.Keys && forall u :: u in atxs ==> atxs'[u].outcome == atxs[u].outcome
    requires tab' == DB.InsertTab(tab, t, vals)
    ensures RowsRel(m, txs', h[tab.nextRow := Ver(tab.nextRow, t, INVALID_TX, vals)], atxs', tab')
  {
    var v := Ver(tab.nextRow, t, INVALID_TX, vals);
    assert TxRel(m, txs[t], t, atxs[t]);
    VersionsInsert(h, v, tab.nextRow, m, txs.Keys);
    CommittedInsert(tab.committed, h, v, m.status);
    ReadsInsert(m, txs, txs', h, v, tab, tab');
    HeldMove(txs, txs', h, h[v.id := v], tab, tab');
    ZeroNotKnown(m, txs, atxs);
    DelsInsert(h, v, atxs, atxs', tab, tab');
  }

  lemma ZeroNotKnown(m: Mgr, txs: map<TxID, TxState>, atxs: map<TxID, DB.Tx>)
    requires ValidMgr(m) && TxsRel(m, txs, atxs)
    ensures INVALID_TX !in atxs
  {
    assert forall t :: t in txs ==> TxRel(m, txs[t], t, atxs[t]);
  }

  /** The guards of a deletion agree on both sides. */
  lemma DeleteGuards(m: Mgr, txs: map<TxID, TxState>, h: map<RowID, Ver>, a: DB.Db, tab: DB.Tab, t: TxID, id: RowID)
    requires TxsRel(m, txs, a.txs) && ReadsRel(m, txs, h, tab) && DelsRel(h, a.txs, tab)
    requires LiveTx(txs, t) && id in h && VersionsOk(h, tab.nextRow, m, txs.Keys)
    requires ValidMgr(m)
    ensures (id in DB.View(tab, t) || id in DB.Del(tab, t)) <==> (Visible(h[id], txs[t].snap, m.status, t) || h[id].xmax == t)
    ensures DB.Taken(a, tab, t, id) <==> DeleteConflicts(h[id], m.status, t)
  {
    var v := h[id];
    assert TxRel(m, txs[t], t, a.txs[t]);
    assert SnapRel(DB.Snap(tab, t), h, txs[t].snap, m.status) && InsRel(DB.Ins(tab, t), h, t);
    assert VersionOk(v, id, tab.nextRow, m, txs.Keys);
    assert id in DB.Del(tab, t) <==> v.xmax == t;
    ZeroNotKnown(m, txs, a.txs);
    if DeleteConflicts(v, m.status, t) {
      assert TxRel(m, txs[v.xmax], v.xmax, a.txs[v.xmax]);
      assert id in DB.Del(tab, v.xmax);
    }
    if DB.Taken(a, tab, t, id) {
      var u :| u in a.txs && u != t && a.txs[u].outcome != Aborted && id in DB.Del(tab, u);
      assert TxRel(m, txs[u], u, a.txs[u]);
      assert v.xmax == u;
    }
  }

  /** A deletion that met no conflict stamps a version nobody's committed or running deletion held. */
  ghost predicate Stampable(v: Ver, m: Mgr, t: TxID) {
    && Outcome(m.status, t) == InProgress
    && (v.xmax == INVALID_TX || v.xmax == t || Outcome(m.status, v.xmax) == Aborted)
    && (v.xmin == t || Outcome(m.status, v.xmin) == Committed)
  }

  lemma ReadsDelete(m: Mgr, txs: map<TxID, TxState>, txs': map<TxID, TxState>, h: map<RowID, Ver>, id: RowID, t: TxID,
                    tab: DB.Tab, tab': DB.Tab)
    requires ReadsRel(m, txs, h, tab) && id in h && Stampable(h[id], m, t) && ValidMgr(m)
    requires forall u :: LiveTx(txs', u) ==> LiveTx(txs, u) && txs'[u].snap == txs[u].snap
    requires tab'.snap == tab.snap && tab'.ins == tab.ins
    ensures ReadsRel(m, txs', h[id := h[id].(xmax := t)], tab')
  {
    var h' := h[id := h[id].(xmax := t)];
    forall u | LiveTx(txs', u) ensures SnapRel(DB.Snap(tab', u), h', txs'[u].snap, m.status) && InsRel(DB.Ins(tab', u), h', u) {
      assert LiveTx(txs, u);
      assert SnapRel(DB.Snap(tab, u), h, txs[u].snap, m.status) && InsRel(DB.Ins(tab, u), h, u);
      assert InSnap(h'[id], txs[u].snap, m.status) == InSnap(h[id], txs[u].snap, m.status);
    }
  }

  /** Nobody but `t`, short of aborting, has deleted a version that is free to stamp. */
  lemma OthersSpare(m: Mgr, txs: map<TxID, TxState>, h: map<RowID, Ver>, id: RowID, t: TxID, u: TxID, atxs: map<TxID, DB.Tx>, tab: DB.Tab)
    requires TxsRel(m, txs, atxs) && DelRel(h, atxs, tab) && id in h && Stampable(h[id], m, t) && INVALID_TX !in atxs
    requires u in atxs && u != t && atxs[u].outcome != Aborted
    ensures id !in DB.Del(tab, u)
  {
    hide DB.Del, SnapOk;
    assert TxRel(m, txs[u], u, atxs[u]);
  }

  lemma DelRelDelete(h: map<RowID, Ver>, id: RowID, t: TxID, atxs: map<TxID, DB.Tx>, atxs': map<TxID, DB.Tx>, tab: DB.Tab, tab': DB.Tab)
    requires DelRel(h, atxs, tab) && t in atxs && id in h
    requires forall u :: u in atxs && u != t && atxs[u].outcome != Aborted ==> id !in DB.Del(tab, u)
    requires atxs'.Keys == atxs.Keys && forall u :: u in atxs ==> atxs'[u].outcome == atxs[u].outcome
    requires forall u :: DB.Del(tab', u) == if u == t then DB.Del(tab, u) + {id} else DB.Del(tab, u)
    ensures DelRel(h[id := h[id].(xmax := t)], atxs', tab')
  {
    hide DB.Del;
  }

  lemma OneDeleterDelete(id: RowID, t: TxID, atxs: map<TxID, DB.Tx>, atxs': map<TxID, DB.Tx>, tab: DB.Tab, tab': DB.Tab)
    requires OneDeleter(atxs, tab)
    requires forall u :: u in atxs && u != t && atxs[u].outcome != Aborted ==> id !in DB.Del(tab, u)
    requires atxs'.Keys == atxs.Keys && forall u :: u in atxs ==> atxs'[u].outcome == atxs[u].outcome
    requires forall u :: DB.Del(tab', u) == if u == t then DB.Del(tab, u) + {id} else DB.Del(tab, u)
    ensures OneDeleter(atxs', tab')
  {
    hide DB.Del;
    forall u, w, k | Deletes(atxs', tab', u, k) && Deletes(atxs', tab', w, k) ensures u == w {
      assert k != id ==> Deletes(atxs, tab, u, k) && Deletes(atxs, tab, w, k);
    }
  }

  lemma DelsDelete(m: Mgr, txs: map<TxID, TxState>, h: map<RowID, Ver>, id: RowID, t: TxID,
                   atxs: map<TxID, DB.Tx>, atxs': map<TxID, DB.Tx>, tab: DB.Tab, tab': DB.Tab)
    requires TxsRel(m, txs, atxs) && DelsRel(h, atxs, tab) && t in atxs
    requires id in h && id < tab.nextRow && Stampable(h[id], m, t) && INVALID_TX !in atxs
    requires atxs'.Keys == atxs.Keys && forall u :: u in atxs ==> atxs'[u].outcome == atxs[u].outcome
    requires tab'.del == tab.del[t := DB.Del(tab, t) + {id}] && tab'.nextRow == tab.nextRow
    ensures DelsRel(h[id := h[id].(xmax := t)], atxs', tab')
  {
    hide DelRel, OneDeleter, TxsRel, Stampable;
    forall u ensures DB.Del(tab', u) == if u == t then DB.Del(tab, u) + {id} else DB.Del(tab, u) {}
    forall u | u in atxs && u != t && atxs[u].outcome != Aborted ensures id !in DB.Del(tab, u) {
      OthersSpare(m, txs, h, id, t, u, atxs, tab);
    }
    DelRelDelete(h, id, t, atxs, atxs', tab, tab');
    OneDeleterDelete(id, t, atxs, atxs', tab, tab');
    forall u, k | u in atxs' && k in DB.Del(tab', u) ensures k < tab'.nextRow {
      assert k == id || k in DB.Del(tab, u);
    }
  }

  lemma VersionsDelete(h: map<RowID, Ver>, nextRow: RowID, m: Mgr, txs: set<TxID>, id: RowID, t: TxID)
    requires VersionsOk(h, nextRow, m, txs) && id in h && Stampable(h[id], m, t) && t in txs
    ensures VersionsOk(h[id := h[id].(xmax := t)], nextRow, m, txs)
  {
    var h' := h[id := h[id].(xmax := t)];
    forall k | k in h' ensures VersionOk(h'[k], k, nextRow, m, txs) {
      assert VersionOk(h[k], k, nextRow, m, txs);
    }
  }

  lemma CommittedDelete(rows: Rows, h: map<RowID, Ver>, m: Mgr, id: RowID, t: TxID)
    requires CommittedRel(rows, h, m.status) && ValidMgr(m) && id in h && Stampable(h[id], m, t)
    ensures CommittedRel(rows, h[id := h[id].(xmax := t)], m.status)
  {}

  lemma HeldDelete(txs: map<TxID, TxState>, txs': map<TxID, TxState>, h: map<RowID, Ver>, id: RowID, t: TxID, tab: DB.Tab, tab': DB.Tab)
    requires HeldRel(txs, h, tab) && id in h
    requires forall u :: LiveTx(txs', u) ==> LiveTx(txs, u)
    requires tab'.del == tab.del[t := DB.Del(tab, t) + {id}]
    ensures HeldRel(txs', h[id := h[id].(xmax := t)], tab')
  {
    forall u, k | LiveTx(txs', u) && k in DB.Del(tab', u) ensures k in h {
      assert LiveTx(txs, u) && (k == id || k in DB.Del(tab, u));
    }
  }

  lemma RowsDelete(m: Mgr, txs: map<TxID, TxState>, h: map<RowID, Ver>, atxs: map<TxID, DB.Tx>, tab: DB.Tab,
                      t: TxID, id: RowID, txs': map<TxID, TxState>, atxs': map<TxID, DB.Tx>, tab': DB.Tab)
    requires ValidMgr(m) && TxsRel(m, txs, atxs) && RowsRel(m, txs, h, atxs, tab) && LiveTx(txs, t)
    requires id in h && Stampable(h[id], m, t)
    requires txs'.Keys == txs.Keys && forall u :: u in txs ==> txs'[u].snap == txs[u].snap && txs'[u].ctl == txs[u].ctl
    requires atxs'.Keys == atxs.Keys && forall u :: u in atxs ==> atxs'[u].outcome == atxs[u].outcome
    requires tab' == DB.DeleteTab(tab, t, id)
    ensures RowsRel(m, txs', h[id := h[id].(xmax := t)], atxs', tab')
  {
    assert VersionOk(h[id], id, tab.nextRow, m, txs.Keys);
    VersionsDelete(h, tab.nextRow, m, txs.Keys, id, t);
    CommittedDelete(tab.committed, h, m, id, t);
    ReadsDelete(m, txs, txs', h, id, t, tab, tab');
    HeldDelete(txs, txs', h, id, t, tab, tab');
    ZeroNotKnown(m, txs, atxs);
    DelsDelete(m, txs, h, id, t, atxs, atxs', tab, tab');
  }

  /** No live transaction sees a version that is dead to the horizon. */
  ghost predicate Spared(m: Mgr, txs: map<TxID, TxState>, h: map<RowID, Ver>, horizon: TxID) {
    forall t, k :: LiveTx(txs, t) && k in h && Visible(h[k], txs[t].snap, m.status, t) ==> !DeadTo(h[k], m.status, horizon)
  }

  /** A horizon no live snapshot reaches below spares them all. */
  lemma SafeSpares(m: Mgr, txs: map<TxID, TxState>, h: map<RowID, Ver>, atxs: map<TxID, DB.Tx>, horizon: TxID)
    requires ValidMgr(m) && TxsRel(m, txs, atxs)
    requires forall t :: LiveTx(txs, t) ==> horizon <= txs[t].snap.xmin
    ensures Spared(m, txs, h, horizon)
  {
    forall t, k | LiveTx(txs, t) && k in h && Visible(h[k], txs[t].snap, m.status, t) ensures !DeadTo(h[k], m.status, horizon) {
      assert TxRel(m, txs[t], t, atxs[t]);
    }
  }

  /** A dead version nobody sees is in nobody's snapshot, inserts or deletions. */
  lemma DeadIsUnseen(v: Ver, k: RowID, nextRow: RowID, m: Mgr, txs: set<TxID>, s: Snapshot, t: TxID, horizon: TxID)
    requires ValidMgr(m) && VersionOk(v, k, nextRow, m, txs) && DeadTo(v, m.status, horizon)
    requires SnapOk(s, m, t) && Outcome(m.status, t) == InProgress && !Visible(v, s, m.status, t)
    ensures !InSnap(v, s, m.status) && v.xmin != t && v.xmax != t
  {}

  lemma ReadsVacuum(m: Mgr, txs: map<TxID, TxState>, h: map<RowID, Ver>, h': map<RowID, Ver>, tab: DB.Tab)
    requires ReadsRel(m, txs, h, tab)
    requires forall k :: k in h' ==> k in h && h'[k] == h[k]
    requires forall t, k :: LiveTx(txs, t) && k in h && k !in h' ==> !InSnap(h[k], txs[t].snap, m.status) && h[k].xmin != t
    ensures ReadsRel(m, txs, h', tab)
  {
    hide InSnap, DB.Snap, DB.Ins;
    forall t | LiveTx(txs, t) ensures SnapRel(DB.Snap(tab, t), h', txs[t].snap, m.status) && InsRel(DB.Ins(tab, t), h', t) {
      assert SnapRel(DB.Snap(tab, t), h, txs[t].snap, m.status) && InsRel(DB.Ins(tab, t), h, t);
    }
  }

  lemma HeldVacuum(m: Mgr, txs: map<TxID, TxState>, h: map<RowID, Ver>, h': map<RowID, Ver>, atxs: map<TxID, DB.Tx>, tab: DB.Tab)
    requires TxsRel(m, txs, atxs) && HeldRel(txs, h, tab) && DelRel(h, atxs, tab)
    requires forall t, k :: LiveTx(txs, t) && k in h && k !in h' ==> h[k].xmax != t
    ensures HeldRel(txs, h', tab)
  {
    hide SnapOk, DB.Del;
    forall t, k | LiveTx(txs, t) && k in DB.Del(tab, t) ensures k in h' {
      assert TxRel(m, txs[t], t, atxs[t]);
      assert k in h && h[k].xmax == t;
    }
  }

  lemma CommittedVacuum(rows: Rows, m: Mgr, h: map<RowID, Ver>, h': map<RowID, Ver>, horizon: TxID)
    requires CommittedRel(rows, h, m.status)
    requires forall k :: k in h' <==> k in h && !DeadTo(h[k], m.status, horizon)
    requires forall k :: k in h' ==> h'[k] == h[k]
    ensures CommittedRel(rows, h', m.status)
  {}

  lemma DelsVacuum(h: map<RowID, Ver>, h': map<RowID, Ver>, atxs: map<TxID, DB.Tx>, tab: DB.Tab)
    requires DelsRel(h, atxs, tab) && forall k :: k in h' ==> k in h && h'[k] == h[k]
    ensures DelsRel(h', atxs, tab)
  {
    hide OneDeleter, IdsBelow, DB.Del;
  }

  lemma RowsVacuum(m: Mgr, txs: map<TxID, TxState>, h: map<RowID, Ver>, h': map<RowID, Ver>, atxs: map<TxID, DB.Tx>,
                   tab: DB.Tab, horizon: TxID)
    requires ValidMgr(m) && TxsRel(m, txs, atxs) && RowsRel(m, txs, h, atxs, tab) && Spared(m, txs, h, horizon)
    requires forall k :: k in h' <==> k in h && !DeadTo(h[k], m.status, horizon)
    requires forall k :: k in h' ==> h'[k] == h[k]
    ensures RowsRel(m, txs, h', atxs, tab)
  {
    hide Visible, ReadsRel, HeldRel, DelRel, OneDeleter, IdsBelow, CommittedRel, SnapOk, InSnap, DeadTo;
    forall k | k in h' ensures VersionOk(h'[k], k, tab.nextRow, m, txs.Keys) {
      assert VersionOk(h[k], k, tab.nextRow, m, txs.Keys);
    }
    forall t, k | LiveTx(txs, t) && k in h && k !in h' ensures !InSnap(h[k], txs[t].snap, m.status) && h[k].xmin != t && h[k].xmax != t {
      assert TxRel(m, txs[t], t, atxs[t]) && VersionOk(h[k], k, tab.nextRow, m, txs.Keys);
      DeadIsUnseen(h[k], k, tab.nextRow, m, txs.Keys, txs[t].snap, t, horizon);
    }
    CommittedVacuum(tab.committed, m, h, h', horizon);
    ReadsVacuum(m, txs, h, h', tab);
    HeldVacuum(m, txs, h, h', atxs, tab);
    DelsVacuum(h, h', atxs, tab);
  }

  // ---- the log ----

  lemma PendingInsert(n: Name, pending: seq<Record>, ins: Rows, del: set<RowID>, id: RowID, vals: Row)
    requires PendingRel(n, pending, ins, del) && id !in del
    ensures PendingRel(n, pending + [Record.Insert(n, id, vals)], DB.With(ins, id, vals), del)
  {
    forall m: Rows ensures Replay(n, m, pending + [Record.Insert(n, id, vals)]) == DB.Changed(m, DB.With(ins, id, vals), del) {
      assert (pending + [Record.Insert(n, id, vals)])[..|pending|] == pending;
      assert Replay(n, m, pending) == DB.Changed(m, ins, del);
    }
  }

  lemma PendingDelete(n: Name, pending: seq<Record>, ins: Rows, del: set<RowID>, id: RowID)
    requires PendingRel(n, pending, ins, del)
    ensures PendingRel(n, pending + [Record.Delete(n, id)], ins, del + {id})
  {
    forall m: Rows ensures Replay(n, m, pending + [Record.Delete(n, id)]) == DB.Changed(m, ins, del + {id}) {
      assert (pending + [Record.Delete(n, id)])[..|pending|] == pending;
      assert Replay(n, m, pending) == DB.Changed(m, ins, del);
    }
  }

  lemma PendingElsewhere(n: Name, pending: seq<Record>, ins: Rows, del: set<RowID>, r: Record)
    requires PendingRel(n, pending, ins, del) && (r.Insert? || r.Delete?) && r.table != n
    ensures PendingRel(n, pending + [r], ins, del)
  {
    forall m: Rows ensures Replay(n, m, pending + [r]) == DB.Changed(m, ins, del) {
      assert (pending + [r])[..|pending|] == pending;
      assert Replay(n, m, pending) == DB.Changed(m, ins, del);
    }
  }

  lemma PendingNone(n: Name)
    ensures PendingRel(n, [], map[], {})
  {
    forall m: Rows ensures Replay(n, m, []) == DB.Changed(m, map[], {}) {}
  }

  /** A flush that lands moves the durable rows by the transaction's changes. */
  lemma FlushLands(n: Name, log: seq<seq<Record>>, pending: seq<Record>, ins: Rows, del: set<RowID>)
    requires PendingRel(n, pending, ins, del)
    ensures Recover(n, log + [pending]) == DB.Changed(Recover(n, log), ins, del)
  {
    RecoverAppend(n, log, pending);
  }
}
