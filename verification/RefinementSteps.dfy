/** Every event keeps the engine related to the snapshot-isolation database. */
module RefinementSteps {
  import opened Values
  import opened Storage
  import opened Records
  import opened Engine
  import opened Refinement
  import DB = SnapshotDb

  lemma TxsBegin(m: Mgr, txs: map<TxID, TxState>, atxs: map<TxID, DB.Tx>)
    requires ValidMgr(m) && TxsRel(m, txs, atxs)
    ensures ValidMgr(Issued(m)) && TxsRel(Issued(m), txs, atxs)
  {
    forall t | t in txs ensures TxRel(Issued(m), txs[t], t, atxs[t]) {
      assert TxRel(m, txs[t], t, atxs[t]);
    }
  }

  /** Finishing any transaction but the ones listed as live keeps their snapshots sound. */
  lemma TxsEnd(m: Mgr, txs: map<TxID, TxState>, atxs: map<TxID, DB.Tx>, t: TxID, o: Status, x: TxState, y: DB.Tx)
    requires ValidMgr(m) && TxsRel(m, txs, atxs) && LiveTx(txs, t) && o != InProgress
    requires x.ctl.stage == Done && x.ctl == y.ctl && y.outcome == o
    ensures ValidMgr(Finished(m, t, o)) && TxsRel(Finished(m, t, o), txs[t := x], atxs[t := y])
  {
    assert TxRel(m, txs[t], t, atxs[t]);
    forall u | u in txs && u != t ensures TxRel(Finished(m, t, o), txs[u], u, atxs[u]) {
      assert TxRel(m, txs[u], u, atxs[u]);
    }
  }

  lemma NextIsFresh(e: State, a: DB.Db)
    requires ControlRel(e, a)
    ensures e.mgr.next !in e.txs && e.mgr.next !in a.begun
  {
    assert forall t :: t in e.txs ==> TxRel(e.mgr, e.txs[t], t, a.txs[t]);
  }

  lemma StepBegin(e: State, a: DB.Db)
    requires Related(e, a)
    ensures Related(Step(e, Begin), DB.DbStep(a, Begin))
  {
    hide RowsRel, LogRel, TxRel;
    var f, b := Step(e, Begin), DB.DbStep(a, Begin);
    TxsBegin(e.mgr, e.txs, a.txs);
    NextIsFresh(e, a);
    forall n | n in e.heaps ensures TableRel(f, b, n) {
      assert TableRel(e, a, n);
      RowsBegin(e.mgr, e.txs, ById(e.heaps[n].versions), a.txs, a.tabs[n]);
    }
  }

  lemma TxsSnapshot(m: Mgr, txs: map<TxID, TxState>, atxs: map<TxID, DB.Tx>, t: TxID, x: TxState, y: DB.Tx)
    requires ValidMgr(m) && TxsRel(m, txs, atxs) && t in m.active && x.snap == SnapshotOf(m)
    requires x.ctl == y.ctl && x.ctl.stage == Running && y.outcome == InProgress && (y.wrote <==> x.pending != [])
    ensures TxsRel(m, txs[t := x], atxs[t := y])
  {
    SnapshotIsOk(m, t);
    var txs', atxs' := txs[t := x], atxs[t := y];
    forall u | u in txs' ensures TxRel(m, txs'[u], u, atxs'[u]) {
      if u != t { assert TxRel(m, txs[u], u, atxs[u]); }
    }
  }

  lemma TableOpen(e: State, a: DB.Db, t: TxID, iso: Isolation, n: Name)
    requires ControlRel(e, a) && TableRel(e, a, n) && t in a.begun
    ensures TableRel(Step(e, Open(t, iso)), DB.DbStep(a, Open(t, iso)), n)
  {
    hide PendingRel, Recover, SnapOk, SnapshotOf, DB.CommittedOf;
    var x, y := TxState(Control(iso, false, Running), SnapshotOf(e.mgr), []), DB.OpenedTx(iso, DB.CommittedOf(a.txs));
    var tab' := DB.TabStep(a, Open(t, iso), n);
    var h := ById(e.heaps[n].versions);
    forall k | k in h ensures h[k].xmin != t {
      assert VersionOk(h[k], k, e.heaps[n].nextRow, e.mgr, e.txs.Keys);
    }
    RowsSnapshot(e.mgr, e.txs, ById(e.heaps[n].versions), a.txs, a.tabs[n], t, x, y, tab');
    PendingNone(n);
    PendingKept(n, e.txs, e.txs[t := x], a.tabs[n], tab', t);
  }

  lemma ControlOpen(e: State, a: DB.Db, t: TxID, iso: Isolation)
    requires ControlRel(e, a) && t in a.begun
    ensures ControlRel(Step(e, Open(t, iso)), DB.DbStep(a, Open(t, iso)))
  {
    var x, y := TxState(Control(iso, false, Running), SnapshotOf(e.mgr), []), DB.OpenedTx(iso, DB.CommittedOf(a.txs));
    TxsSnapshot(e.mgr, e.txs, a.txs, t, x, y);
  }

  lemma StepOpen(e: State, a: DB.Db, t: TxID, iso: Isolation)
    requires Related(e, a)
    ensures Related(Step(e, Open(t, iso)), DB.DbStep(a, Open(t, iso)))
  {
    hide HeapRel, LogRel, TxRel, ValidMgr, DB.OpenTab;
    if t in a.begun {
      ControlOpen(e, a, t, iso);
      forall n | n in e.heaps ensures TableRel(Step(e, Open(t, iso)), DB.DbStep(a, Open(t, iso)), n) {
        assert TableRel(e, a, n);
        TableOpen(e, a, t, iso, n);
      }
    } else {
      Unchanged(e, Step(e, Open(t, iso)), a, DB.DbStep(a, Open(t, iso)));
    }
  }

  /** Transactions other than `t` keep their buffers and their changes. */
  lemma PendingKept(n: Name, txs: map<TxID, TxState>, txs': map<TxID, TxState>, tab: DB.Tab, tab': DB.Tab, t: TxID)
    requires forall u :: u in txs && txs[u].ctl.stage == Running ==> PendingRel(n, txs[u].pending, DB.Ins(tab, u), DB.Del(tab, u))
    requires forall u :: u in txs' && u != t ==> u in txs && txs'[u] == txs[u]
    requires forall u :: u != t ==> DB.Ins(tab', u) == DB.Ins(tab, u) && DB.Del(tab', u) == DB.Del(tab, u)
    requires t in txs' && txs'[t].ctl.stage == Running ==> PendingRel(n, txs'[t].pending, DB.Ins(tab', t), DB.Del(tab', t))
    ensures forall u :: u in txs' && txs'[u].ctl.stage == Running ==> PendingRel(n, txs'[u].pending, DB.Ins(tab', u), DB.Del(tab', u))
  {}

  lemma Unchanged(e: State, f: State, a: DB.Db, b: DB.Db)
    requires Related(e, a) && f == e && b.tabs.Keys == a.tabs.Keys && b == a.(tabs := b.tabs)
    requires forall n :: n in a.tabs ==> b.tabs[n] == a.tabs[n]
    ensures Related(f, b)
  {
    forall n | n in f.heaps ensures TableRel(f, b, n) { assert TableRel(e, a, n); }
  }

  lemma TableNextStatement(e: State, a: DB.Db, t: TxID, n: Name)
    requires ControlRel(e, a) && TableRel(e, a, n) && Statement(e, t) && e.txs[t].ctl.iso == ReadCommitted
    ensures TableRel(Step(e, NextStatement(t)), DB.DbStep(a, NextStatement(t)), n)
  {
    hide PendingRel, Recover, RowsRel, SnapOk, SnapshotOf, DB.CommittedOf;
    assert TxRel(e.mgr, e.txs[t], t, a.txs[t]);
    var x := TxState(e.txs[t].ctl, SnapshotOf(e.mgr), e.txs[t].pending);
    var tab' := DB.TabStep(a, NextStatement(t), n);
    RowsSnapshot(e.mgr, e.txs, ById(e.heaps[n].versions), a.txs, a.tabs[n], t, x, DB.RefreshedTx(a.txs[t], DB.CommittedOf(a.txs)), tab');
    PendingKept(n, e.txs, e.txs[t := x], a.tabs[n], tab', t);
  }

  lemma ControlNextStatement(e: State, a: DB.Db, t: TxID)
    requires ControlRel(e, a) && Statement(e, t) && e.txs[t].ctl.iso == ReadCommitted
    ensures ControlRel(Step(e, NextStatement(t)), DB.DbStep(a, NextStatement(t)))
  {
    assert TxRel(e.mgr, e.txs[t], t, a.txs[t]);
    var x := TxState(e.txs[t].ctl, SnapshotOf(e.mgr), e.txs[t].pending);
    TxsSnapshot(e.mgr, e.txs, a.txs, t, x, DB.RefreshedTx(a.txs[t], DB.CommittedOf(a.txs)));
  }

  lemma StepNextStatement(e: State, a: DB.Db, t: TxID)
    requires Related(e, a)
    ensures Related(Step(e, NextStatement(t)), DB.DbStep(a, NextStatement(t)))
  {
    hide HeapRel, LogRel, SnapOk, ValidMgr, DB.RefreshTab;
    WritersAgree(e, a, t);
    if Statement(e, t) && e.txs[t].ctl.iso == ReadCommitted {
      ControlNextStatement(e, a, t);
      forall n | n in e.heaps ensures TableRel(Step(e, NextStatement(t)), DB.DbStep(a, NextStatement(t)), n) {
        assert TableRel(e, a, n);
        TableNextStatement(e, a, t, n);
      }
    } else {
      Unchanged(e, Step(e, NextStatement(t)), a, DB.DbStep(a, NextStatement(t)));
    }
  }

  // ---- row changes ----

  lemma TxsWrote(m: Mgr, txs: map<TxID, TxState>, atxs: map<TxID, DB.Tx>, t: TxID, r: Record)
    requires TxsRel(m, txs, atxs) && t in txs
    ensures TxsRel(m, txs[t := TxState(txs[t].ctl, txs[t].snap, txs[t].pending + [r])], atxs[t := DB.WroteTx(atxs[t])])
  {
    var txs', atxs' := txs[t := TxState(txs[t].ctl, txs[t].snap, txs[t].pending + [r])], atxs[t := DB.WroteTx(atxs[t])];
    forall u | u in txs' ensures TxRel(m, txs'[u], u, atxs'[u]) {
      assert TxRel(m, txs[u], u, atxs[u]);
    }
  }

  /** Bookkeeping that leaves snapshots, stages and outcomes alone leaves every table related. */
  lemma RowsFrame(m: Mgr, txs: map<TxID, TxState>, txs': map<TxID, TxState>, h: map<RowID, Ver>,
                  atxs: map<TxID, DB.Tx>, atxs': map<TxID, DB.Tx>, tab: DB.Tab, tab': DB.Tab)
    requires RowsRel(m, txs, h, atxs, tab)
    requires txs'.Keys == txs.Keys && forall u :: LiveTx(txs', u) ==> LiveTx(txs, u) && txs'[u].snap == txs[u].snap
    requires atxs'.Keys == atxs.Keys && forall u :: u in atxs ==> atxs'[u].outcome == atxs[u].outcome
    requires tab'.snap == tab.snap && tab'.ins == tab.ins && tab'.del == tab.del
    requires tab'.nextRow == tab.nextRow && tab'.committed == tab.committed
    ensures RowsRel(m, txs', h, atxs', tab')
  {
    forall u | LiveTx(txs', u) ensures SnapRel(DB.Snap(tab', u), h, txs'[u].snap, m.status) && InsRel(DB.Ins(tab', u), h, u) {
      assert LiveTx(txs, u);
    }
    HeldMove(txs, txs', h, h, tab, tab');
    DelsEnd(h, atxs, atxs', tab, tab');
  }

  lemma SnocFresh(hs: HeapState, nextRow: RowID, m: Mgr, txs: set<TxID>, v: Ver)
    requires Ascending(hs.versions) && VersionsOk(ById(hs.versions), nextRow, m, txs) && v.id == nextRow
    ensures Ascending(hs.versions + [v])
  {
    assert forall k :: k in ById(hs.versions) ==> VersionOk(ById(hs.versions)[k], k, nextRow, m, txs);
    SnocAscending(hs.versions, v);
  }

  lemma HeapInserted(m: Mgr, txs: map<TxID, TxState>, hs: HeapState, atxs: map<TxID, DB.Tx>, tab: DB.Tab,
                     t: TxID, vals: Row, txs': map<TxID, TxState>, atxs': map<TxID, DB.Tx>, tab': DB.Tab)
    requires ValidMgr(m) && TxsRel(m, txs, atxs) && HeapRel(m, txs, hs, atxs, tab) && LiveTx(txs, t)
    requires txs'.Keys == txs.Keys && forall u :: u in txs ==> txs'[u].snap == txs[u].snap && txs'[u].ctl == txs[u].ctl
    requires atxs'.Keys == atxs.Keys && forall u :: u in atxs ==> atxs'[u].outcome == atxs[u].outcome
    requires tab' == DB.InsertTab(tab, t, vals)
    ensures HeapRel(m, txs', HeapInsert(hs, t, vals), atxs', tab')
  {
    var v := Ver(hs.nextRow, t, INVALID_TX, vals);
    ByIdSnoc(hs.versions, v);
    SnocFresh(hs, hs.nextRow, m, txs.Keys, v);
    assert ById(HeapInsert(hs, t, vals).versions) == ById(hs.versions)[tab.nextRow := v];
    RowsInsert(m, txs, ById(hs.versions), atxs, tab, t, vals, txs', atxs', tab');
  }

  lemma FreshNotDeleted(m: Mgr, txs: map<TxID, TxState>, hs: HeapState, atxs: map<TxID, DB.Tx>, tab: DB.Tab, t: TxID)
    requires HeapRel(m, txs, hs, atxs, tab) && t in atxs
    ensures tab.nextRow !in DB.Del(tab, t)
  {}

  lemma HeapDeleted(m: Mgr, txs: map<TxID, TxState>, hs: HeapState, atxs: map<TxID, DB.Tx>, tab: DB.Tab,
                    t: TxID, id: RowID, txs': map<TxID, TxState>, atxs': map<TxID, DB.Tx>, tab': DB.Tab)
    requires ValidMgr(m) && TxsRel(m, txs, atxs) && HeapRel(m, txs, hs, atxs, tab) && LiveTx(txs, t)
    requires id in ById(hs.versions) && Stampable(ById(hs.versions)[id], m, t)
    requires txs'.Keys == txs.Keys && forall u :: u in txs ==> txs'[u].snap == txs[u].snap && txs'[u].ctl == txs[u].ctl
    requires atxs'.Keys == atxs.Keys && forall u :: u in atxs ==> atxs'[u].outcome == atxs[u].outcome
    requires tab' == DB.DeleteTab(tab, t, id)
    ensures HeapRel(m, txs', HeapState(Stamp(hs.versions, id, t), hs.nextRow), atxs', tab')
  {
    ByIdStamp(hs.versions, id, t);
    RowsDelete(m, txs, ById(hs.versions), atxs, tab, t, id, txs', atxs', tab');
  }

  /** A transaction's buffer after one more record. */
  function Buffered(txs: map<TxID, TxState>, t: TxID, r: Record): map<TxID, TxState>
    requires t in txs
  {
    txs[t := TxState(txs[t].ctl, txs[t].snap, txs[t].pending + [r])]
  }

  lemma LogInserted(log: seq<seq<Record>>, txs: map<TxID, TxState>, n: Name, tab: DB.Tab, t: TxID, vals: Row, tab': DB.Tab)
    requires LogRel(log, txs, n, tab) && t in txs && txs[t].ctl.stage == Running && tab.nextRow !in DB.Del(tab, t)
    requires tab' == DB.InsertTab(tab, t, vals)
    ensures LogRel(log, Buffered(txs, t, Record.Insert(n, tab.nextRow, vals)), n, tab')
  {
    var id := tab.nextRow;
    PendingInsert(n, txs[t].pending, DB.Ins(tab, t), DB.Del(tab, t), id, vals);
    PendingKept(n, txs, Buffered(txs, t, Record.Insert(n, id, vals)), tab, tab', t);
  }

  lemma LogDeleted(log: seq<seq<Record>>, txs: map<TxID, TxState>, n: Name, tab: DB.Tab, t: TxID, id: RowID, tab': DB.Tab)
    requires LogRel(log, txs, n, tab) && t in txs && txs[t].ctl.stage == Running
    requires tab' == DB.DeleteTab(tab, t, id)
    ensures LogRel(log, Buffered(txs, t, Record.Delete(n, id)), n, tab')
  {
    PendingDelete(n, txs[t].pending, DB.Ins(tab, t), DB.Del(tab, t), id);
    PendingKept(n, txs, Buffered(txs, t, Record.Delete(n, id)), tab, tab', t);
  }

  lemma TableInsert(e: State, a: DB.Db, t: TxID, n: Name, vals: Row, f: State, b: DB.Db)
    requires ValidMgr(e.mgr) && TxsRel(e.mgr, e.txs, a.txs) && TableRel(e, a, n) && Statement(e, t)
    requires f == Logged(e, t, Record.Insert(n, e.heaps[n].nextRow, vals), n, HeapInsert(e.heaps[n], t, vals))
    requires b.txs == a.txs[t := DB.WroteTx(a.txs[t])] && n in b.tabs
    requires b.tabs[n] == DB.InsertTab(a.tabs[n], t, vals)
    ensures TableRel(f, b, n)
  {
    hide RowsRel, PendingRel, TxRel, ValidMgr;
    HeapInserted(e.mgr, e.txs, e.heaps[n], a.txs, a.tabs[n], t, vals, f.txs, b.txs, b.tabs[n]);
    FreshNotDeleted(e.mgr, e.txs, e.heaps[n], a.txs, a.tabs[n], t);
    LogInserted(e.log, e.txs, n, a.tabs[n], t, vals, b.tabs[n]);
  }

  lemma TableDelete(e: State, a: DB.Db, t: TxID, n: Name, id: RowID, f: State, b: DB.Db)
    requires ValidMgr(e.mgr) && TxsRel(e.mgr, e.txs, a.txs) && TableRel(e, a, n) && Statement(e, t)
    requires id in ById(e.heaps[n].versions) && Stampable(ById(e.heaps[n].versions)[id], e.mgr, t)
    requires f == Logged(e, t, Record.Delete(n, id), n, HeapState(Stamp(e.heaps[n].versions, id, t), e.heaps[n].nextRow))
    requires b.txs == a.txs[t := DB.WroteTx(a.txs[t])] && n in b.tabs
    requires b.tabs[n] == DB.DeleteTab(a.tabs[n], t, id)
    ensures TableRel(f, b, n)
  {
    hide RowsRel, PendingRel, TxRel, ValidMgr, Stampable;
    HeapDeleted(e.mgr, e.txs, e.heaps[n], a.txs, a.tabs[n], t, id, f.txs, b.txs, b.tabs[n]);
    LogDeleted(e.log, e.txs, n, a.tabs[n], t, id, b.tabs[n]);
  }

  lemma TableElsewhere(e: State, a: DB.Db, t: TxID, r: Record, n: Name, f: State, b: DB.Db)
    requires ControlRel(e, a) && TableRel(e, a, n) && Statement(e, t) && (r.Insert? || r.Delete?) && r.table != n
    requires f.mgr == e.mgr && f.log == e.log && n in f.heaps && f.heaps[n] == e.heaps[n]
    requires f.txs == e.txs[t := TxState(e.txs[t].ctl, e.txs[t].snap, e.txs[t].pending + [r])]
    requires b.txs == a.txs[t := DB.WroteTx(a.txs[t])] && n in b.tabs && b.tabs[n] == a.tabs[n]
    ensures TableRel(f, b, n)
  {
    hide PendingRel, Recover;
    RowsFrame(e.mgr, e.txs, f.txs, ById(e.heaps[n].versions), a.txs, b.txs, a.tabs[n], a.tabs[n]);
    PendingElsewhere(n, e.txs[t].pending, DB.Ins(a.tabs[n], t), DB.Del(a.tabs[n], t), r);
    PendingKept(n, e.txs, f.txs, a.tabs[n], a.tabs[n], t);
  }

  /** A row change related on its own table is related on all of them. */
  lemma WriteRelated(e: State, a: DB.Db, t: TxID, r: Record, h: HeapState, f: State, b: DB.Db)
    requires Related(e, a) && Statement(e, t) && (r.Insert? || r.Delete?) && r.table in e.heaps
    requires f == Logged(e, t, r, r.table, h)
    requires b.txs == a.txs[t := DB.WroteTx(a.txs[t])] && b.tabs.Keys == a.tabs.Keys
    requires b.next == a.next && b.begun == a.begun && b.open == a.open && b.dirty == a.dirty
    requires forall k :: k in a.tabs && k != r.table ==> b.tabs[k] == a.tabs[k]
    requires TableRel(f, b, r.table)
    ensures Related(f, b)
  {
    hide HeapRel, LogRel, TxRel, ValidMgr;
    TxsWrote(e.mgr, e.txs, a.txs, t, r);
    forall k | k in f.heaps ensures TableRel(f, b, k) {
      assert TableRel(e, a, k);
      if k != r.table { TableElsewhere(e, a, t, r, k, f, b); }
    }
  }

  lemma InsertRelated(e: State, a: DB.Db, t: TxID, n: Name, vals: Row, f: State, b: DB.Db)
    requires Related(e, a) && Statement(e, t) && n in e.heaps
    requires f == Logged(e, t, Record.Insert(n, e.heaps[n].nextRow, vals), n, HeapInsert(e.heaps[n], t, vals))
    requires b.txs == a.txs[t := DB.WroteTx(a.txs[t])] && b.tabs.Keys == a.tabs.Keys
    requires b.next == a.next && b.begun == a.begun && b.open == a.open && b.dirty == a.dirty
    requires forall k :: k in a.tabs && k != n ==> b.tabs[k] == a.tabs[k]
    requires b.tabs[n] == DB.InsertTab(a.tabs[n], t, vals)
    ensures Related(f, b)
  {
    hide HeapRel, LogRel, TxRel, ValidMgr, DB.InsertTab;
    assert TableRel(e, a, n);
    TableInsert(e, a, t, n, vals, f, b);
    WriteRelated(e, a, t, Record.Insert(n, e.heaps[n].nextRow, vals), HeapInsert(e.heaps[n], t, vals), f, b);
  }

  lemma StepInsert(e: State, a: DB.Db, t: TxID, n: Name, vals: Row)
    requires Related(e, a)
    ensures Related(Step(e, InsertRow(t, n, vals)), DB.DbStep(a, InsertRow(t, n, vals)))
  {
    hide HeapRel, LogRel, TxRel, ValidMgr, DB.InsertTab;
    WritersAgree(e, a, t);
    if Statement(e, t) && n in e.heaps {
      InsertRelated(e, a, t, n, vals, Step(e, InsertRow(t, n, vals)), DB.DbStep(a, InsertRow(t, n, vals)));
    } else {
      Unchanged(e, Step(e, InsertRow(t, n, vals)), a, DB.DbStep(a, InsertRow(t, n, vals)));
    }
  }

  lemma WritersAgree(e: State, a: DB.Db, t: TxID)
    requires ControlRel(e, a)
    ensures t in e.txs <==> t in a.txs
    ensures t in e.txs ==> TxRel(e.mgr, e.txs[t], t, a.txs[t])
    ensures Statement(e, t) <==> DB.CanWrite(a, t)
  {}

  lemma DeleteRelated(e: State, a: DB.Db, t: TxID, n: Name, id: RowID, f: State, b: DB.Db)
    requires Related(e, a) && Deletable(e, t, n, id)
    requires f == Logged(e, t, Record.Delete(n, id), n, HeapState(Stamp(e.heaps[n].versions, id, t), e.heaps[n].nextRow))
    requires b.txs == a.txs[t := DB.WroteTx(a.txs[t])] && b.tabs.Keys == a.tabs.Keys
    requires b.next == a.next && b.begun == a.begun && b.open == a.open && b.dirty == a.dirty
    requires forall k :: k in a.tabs && k != n ==> b.tabs[k] == a.tabs[k]
    requires b.tabs[n] == DB.DeleteTab(a.tabs[n], t, id)
    ensures Related(f, b)
  {
    hide HeapRel, LogRel, TxRel, ValidMgr, DB.DeleteTab, Stamp, Stampable;
    assert TableRel(e, a, n);
    DeleteAgrees(e, a, t, n, id);
    TableDelete(e, a, t, n, id, f, b);
    WriteRelated(e, a, t, Record.Delete(n, id), HeapState(Stamp(e.heaps[n].versions, id, t), e.heaps[n].nextRow), f, b);
  }

  lemma StepDelete(e: State, a: DB.Db, t: TxID, n: Name, id: RowID)
    requires Related(e, a)
    ensures Related(Step(e, DeleteRow(t, n, id)), DB.DbStep(a, DeleteRow(t, n, id)))
  {
    hide HeapRel, LogRel, TxRel, ValidMgr, DB.DeleteTab, Stamp, Stampable;
    if n in e.heaps { DeleteAgrees(e, a, t, n, id); }
    if Deletable(e, t, n, id) {
      DeleteRelated(e, a, t, n, id, Step(e, DeleteRow(t, n, id)), DB.DbStep(a, DeleteRow(t, n, id)));
    } else {
      Unchanged(e, Step(e, DeleteRow(t, n, id)), a, DB.DbStep(a, DeleteRow(t, n, id)));
    }
  }

  /** Whether the engine performs a deletion. */
  ghost predicate Deletable(e: State, t: TxID, n: Name, id: RowID) {
    && Statement(e, t) && n in e.heaps && id in ById(e.heaps[n].versions)
    && Reaches(e, t, ById(e.heaps[n].versions)[id])
    && !DeleteConflicts(ById(e.heaps[n].versions)[id], e.mgr.status, t)
  }

  /** Both sides let the same deletions through, and the version they stamp is free. */
  lemma DeleteAgrees(e: State, a: DB.Db, t: TxID, n: Name, id: RowID)
    requires ControlRel(e, a) && TableRel(e, a, n)
    ensures Deletable(e, t, n, id) <==> DB.CanDelete(a, t, n, id)
    ensures Deletable(e, t, n, id) ==> Stampable(ById(e.heaps[n].versions)[id], e.mgr, t)
  {
    var h, tab := ById(e.heaps[n].versions), a.tabs[n];
    assert t in e.txs ==> TxRel(e.mgr, e.txs[t], t, a.txs[t]);
    if Statement(e, t) {
      assert LiveTx(e.txs, t);
      if id in h {
        DeleteGuards(e.mgr, e.txs, h, a, tab, t, id);
        assert VersionOk(h[id], id, e.heaps[n].nextRow, e.mgr, e.txs.Keys);
      } else {
        assert SnapRel(DB.Snap(tab, t), h, e.txs[t].snap, e.mgr.status) && InsRel(DB.Ins(tab, t), h, t);
      }
    }
  }

  // ---- the ends of transactions ----

  lemma StepFail(e: State, a: DB.Db, t: TxID)
    requires Related(e, a)
    ensures Related(Step(e, Fail(t)), DB.DbStep(a, Fail(t)))
  {
    hide HeapRel, LogRel, TxRel, ValidMgr;
    WritersAgree(e, a, t);
    if t in e.txs && e.txs[t].ctl.stage == Running {
      FailRelated(e, a, t, Step(e, Fail(t)), DB.DbStep(a, Fail(t)));
    } else {
      Unchanged(e, Step(e, Fail(t)), a, DB.DbStep(a, Fail(t)));
    }
  }

  /** The two sides agree on everything but the transactions, the log and the table contents. */
  ghost predicate SameShape(e: State, a: DB.Db, f: State, b: DB.Db) {
    && f.heaps.Keys == e.heaps.Keys && b.tabs.Keys == a.tabs.Keys
    && b.next == f.mgr.next && b.begun == a.begun && b.open == f.open && b.dirty == f.dirty
  }

  lemma FailRelated(e: State, a: DB.Db, t: TxID, f: State, b: DB.Db)
    requires Related(e, a) && t in e.txs && e.txs[t].ctl.stage == Running && SameShape(e, a, f, b)
    requires f.mgr == e.mgr && f.heaps == e.heaps && f.log == e.log
    requires f.txs == e.txs[t := TxState(Control(e.txs[t].ctl.iso, true, Running), e.txs[t].snap, e.txs[t].pending)]
    requires b.txs == a.txs[t := DB.FailedTx(a.txs[t])]
    requires forall n :: n in a.tabs ==> b.tabs[n] == a.tabs[n]
    ensures Related(f, b)
  {
    hide HeapRel, LogRel, ValidMgr, SnapOk;
    forall u | u in f.txs ensures TxRel(f.mgr, f.txs[u], u, b.txs[u]) {
      assert TxRel(e.mgr, e.txs[u], u, a.txs[u]);
    }
    forall n | n in f.heaps ensures TableRel(f, b, n) {
      assert TableRel(e, a, n);
      TableFrame(e, a, t, false, f, b, n);
    }
  }

  /** A change of `t`'s own bookkeeping, with or without its buffer reaching the log. */
  lemma TableFrame(e: State, a: DB.Db, t: TxID, landed: bool, f: State, b: DB.Db, n: Name)
    requires TableRel(e, a, n) && t in e.txs && t in a.txs && e.txs[t].ctl.stage == Running
    requires f.mgr == e.mgr && f.heaps == e.heaps && f.log == if landed then e.log + [e.txs[t].pending] else e.log
    requires f.txs.Keys == e.txs.Keys && (forall u :: u in e.txs && u != t ==> f.txs[u] == e.txs[u])
    requires f.txs[t].snap == e.txs[t].snap && (f.txs[t].ctl.stage == Running ==> f.txs[t].pending == e.txs[t].pending)
    requires b.txs.Keys == a.txs.Keys && forall u :: u in a.txs ==> b.txs[u].outcome == a.txs[u].outcome
    requires n in b.tabs && b.tabs[n] == if landed then DB.LandTab(a.tabs[n], t) else a.tabs[n]
    ensures TableRel(f, b, n)
  {
    hide RowsRel, PendingRel, Recover;
    RowsFrame(e.mgr, e.txs, f.txs, ById(e.heaps[n].versions), a.txs, b.txs, a.tabs[n], b.tabs[n]);
    if landed { FlushLands(n, e.log, e.txs[t].pending, DB.Ins(a.tabs[n], t), DB.Del(a.tabs[n], t)); }
    PendingKept(n, e.txs, f.txs, a.tabs[n], b.tabs[n], t);
  }

  /** What the end of `t` does to one table. */
  function EndTab(tab: DB.Tab, t: TxID, o: Status, landed: bool): DB.Tab {
    if o == Committed then DB.CommitTab(tab, t) else if landed then DB.LandTab(tab, t) else tab
  }

  lemma LogEnded(log: seq<seq<Record>>, txs: map<TxID, TxState>, n: Name, tab: DB.Tab, t: TxID, landed: bool,
                 txs': map<TxID, TxState>, tab': DB.Tab)
    requires LogRel(log, txs, n, tab) && t in txs && (landed ==> txs[t].ctl.stage == Running)
    requires txs'.Keys == txs.Keys && txs'[t].ctl.stage != Running && forall u :: u in txs && u != t ==> txs'[u] == txs[u]
    requires tab'.ins == tab.ins && tab'.del == tab.del
    requires tab'.durable == if landed then DB.Changed(tab.durable, DB.Ins(tab, t), DB.Del(tab, t)) else tab.durable
    ensures LogRel(if landed then log + [txs[t].pending] else log, txs', n, tab')
  {
    hide PendingRel, Recover;
    if landed { FlushLands(n, log, txs[t].pending, DB.Ins(tab, t), DB.Del(tab, t)); }
    PendingKept(n, txs, txs', tab, tab', t);
  }

  lemma TableEnd(e: State, a: DB.Db, t: TxID, o: Status, landed: bool, f: State, b: DB.Db, n: Name)
    requires ValidMgr(e.mgr) && TxsRel(e.mgr, e.txs, a.txs) && TableRel(e, a, n)
    requires LiveTx(e.txs, t) && o != InProgress && (landed ==> e.txs[t].ctl.stage == Running && o == Aborted)
    requires f.mgr == Finished(e.mgr, t, o) && f.heaps == e.heaps && f.txs.Keys == e.txs.Keys
    requires f.log == if landed then e.log + [e.txs[t].pending] else e.log
    requires f.txs[t].ctl.stage == Done && forall u :: u in e.txs && u != t ==> f.txs[u] == e.txs[u]
    requires b.txs.Keys == a.txs.Keys && b.txs[t].outcome == o && forall u :: u in a.txs && u != t ==> b.txs[u] == a.txs[u]
    requires n in b.tabs && b.tabs[n] == EndTab(a.tabs[n], t, o, landed)
    ensures TableRel(f, b, n)
  {
    hide RowsRel, LogRel, TxRel, ValidMgr, Finished;
    RowsEnd(e.mgr, e.txs, ById(e.heaps[n].versions), a.txs, a.tabs[n], t, o, f.txs, b.txs, b.tabs[n]);
    LogEnded(e.log, e.txs, n, a.tabs[n], t, landed, f.txs, b.tabs[n]);
  }

  lemma ControlEnd(e: State, a: DB.Db, t: TxID, o: Status, f: State, b: DB.Db)
    requires ControlRel(e, a) && SameShape(e, a, f, b) && LiveTx(e.txs, t) && o != InProgress
    requires f.mgr == Finished(e.mgr, t, o)
    requires t in f.txs && f.txs == e.txs[t := f.txs[t]] && f.txs[t].ctl.stage == Done
    requires t in b.txs && b.txs == a.txs[t := b.txs[t]] && b.txs[t].outcome == o && b.txs[t].ctl == f.txs[t].ctl
    ensures ControlRel(f, b)
  {
    hide TxRel;
    TxsEnd(e.mgr, e.txs, a.txs, t, o, f.txs[t], b.txs[t]);
  }

  lemma EndRelated(e: State, a: DB.Db, t: TxID, o: Status, landed: bool, f: State, b: DB.Db)
    requires Related(e, a) && SameShape(e, a, f, b)
    requires LiveTx(e.txs, t) && o != InProgress && (landed ==> e.txs[t].ctl.stage == Running && o == Aborted)
    requires f.mgr == Finished(e.mgr, t, o) && f.heaps == e.heaps
    requires f.log == if landed then e.log + [e.txs[t].pending] else e.log
    requires t in f.txs && f.txs == e.txs[t := f.txs[t]] && f.txs[t].ctl.stage == Done
    requires t in b.txs && b.txs == a.txs[t := b.txs[t]] && b.txs[t].outcome == o && b.txs[t].ctl == f.txs[t].ctl
    requires forall n :: n in a.tabs ==> b.tabs[n] == EndTab(a.tabs[n], t, o, landed)
    ensures Related(f, b)
  {
    hide EndTab, HeapRel, LogRel, TxRel, ValidMgr, Finished;
    ControlEnd(e, a, t, o, f, b);
    forall n | n in f.heaps ensures TableRel(f, b, n) {
      assert TableRel(e, a, n);
      TableEnd(e, a, t, o, landed, f, b, n);
    }
  }

  lemma StepFinish(e: State, a: DB.Db, t: TxID)
    requires Related(e, a)
    ensures Related(Step(e, FinishCommit(t)), DB.DbStep(a, FinishCommit(t)))
  {
    hide HeapRel, LogRel, TxRel, ValidMgr, Finished, DB.CommitTab;
    WritersAgree(e, a, t);
    if t in e.txs && e.txs[t].ctl.stage == Flushed {
      EndRelated(e, a, t, Committed, false, Step(e, FinishCommit(t)), DB.DbStep(a, FinishCommit(t)));
    } else {
      Unchanged(e, Step(e, FinishCommit(t)), a, DB.DbStep(a, FinishCommit(t)));
    }
  }

  lemma StepRollback(e: State, a: DB.Db, t: TxID)
    requires Related(e, a)
    ensures Related(Step(e, Rollback(t)), DB.DbStep(a, Rollback(t)))
  {
    hide HeapRel, LogRel, TxRel, ValidMgr, Finished;
    WritersAgree(e, a, t);
    if t in e.txs && e.txs[t].ctl.stage == Running {
      EndRelated(e, a, t, Aborted, false, Step(e, Rollback(t)), DB.DbStep(a, Rollback(t)));
    } else {
      Unchanged(e, Step(e, Rollback(t)), a, DB.DbStep(a, Rollback(t)));
    }
  }

  /** A flush that succeeds: the transaction is still in progress, its buffer is in the log. */
  lemma FlushRelated(e: State, a: DB.Db, t: TxID, landed: bool, f: State, b: DB.Db)
    requires Related(e, a) && SameShape(e, a, f, b) && t in e.txs && e.txs[t].ctl.stage == Running
    requires f.mgr == e.mgr && f.heaps == e.heaps
    requires f.log == if landed then e.log + [e.txs[t].pending] else e.log
    requires f.txs == e.txs[t := TxState(Control(e.txs[t].ctl.iso, e.txs[t].ctl.failed, Flushed), e.txs[t].snap, [])]
    requires t in b.txs && b.txs == a.txs[t := b.txs[t]] && b.txs[t].outcome == a.txs[t].outcome && b.txs[t].ctl == f.txs[t].ctl
    requires forall n :: n in a.tabs ==> b.tabs[n] == if landed then DB.LandTab(a.tabs[n], t) else a.tabs[n]
    ensures Related(f, b)
  {
    hide HeapRel, LogRel, ValidMgr, SnapOk, DB.LandTab;
    forall u | u in f.txs ensures TxRel(f.mgr, f.txs[u], u, b.txs[u]) {
      assert TxRel(e.mgr, e.txs[u], u, a.txs[u]);
    }
    forall n | n in f.heaps ensures TableRel(f, b, n) {
      assert TableRel(e, a, n);
      TableFrame(e, a, t, landed, f, b, n);
    }
  }

  lemma StepFlush(e: State, a: DB.Db, t: TxID, io: Io)
    requires Related(e, a)
    ensures Related(Step(e, Flush(t, io)), DB.DbStep(a, Flush(t, io)))
  {
    hide HeapRel, LogRel, ValidMgr, Finished, SnapOk, DB.LandTab;
    WritersAgree(e, a, t);
    if Statement(e, t) {
      var f, b := Step(e, Flush(t, io)), DB.DbStep(a, Flush(t, io));
      assert FlushOk(e, t, io) == DB.FlushOk(a, t, io) && Lands(e, t, io) == DB.Lands(a, t, io);
      if FlushOk(e, t, io) {
        FlushRelated(e, a, t, Lands(e, t, io), f, b);
      } else {
        EndRelated(e, a, t, Aborted, Lands(e, t, io), f, b);
      }
    } else {
      Unchanged(e, Step(e, Flush(t, io)), a, DB.DbStep(a, Flush(t, io)));
    }
  }

  // ---- maintenance ----

  lemma VacuumRelated(e: State, a: DB.Db, n: Name, horizon: TxID)
    requires Related(e, a) && n in e.heaps && Spared(e.mgr, e.txs, ById(e.heaps[n].versions), horizon)
    ensures Related(Vacuumed(e, n, horizon), a)
  {
    hide HeapRel, LogRel, TxRel, ValidMgr, VacuumVersions, Spared;
    var f := Vacuumed(e, n, horizon);
    forall k | k in f.heaps ensures TableRel(f, a, k) {
      assert TableRel(e, a, k);
      if k == n { HeapVacuumed(e.mgr, e.txs, e.heaps[n], a.txs, a.tabs[n], horizon); }
    }
  }

  lemma HeapVacuumed(m: Mgr, txs: map<TxID, TxState>, hs: HeapState, atxs: map<TxID, DB.Tx>, tab: DB.Tab, horizon: TxID)
    requires ValidMgr(m) && TxsRel(m, txs, atxs) && HeapRel(m, txs, hs, atxs, tab) && Spared(m, txs, ById(hs.versions), horizon)
    ensures HeapRel(m, txs, HeapState(VacuumVersions(hs.versions, m.status, horizon), hs.nextRow), atxs, tab)
  {
    hide RowsRel, DeadTo, Spared;
    VacuumSubseq(hs.versions, m.status, horizon);
    RowsVacuum(m, txs, ById(hs.versions), ById(VacuumVersions(hs.versions, m.status, horizon)), atxs, tab, horizon);
  }

  lemma StepVacuum(e: State, a: DB.Db, n: Name, horizon: TxID)
    requires Related(e, a)
    ensures Related(Step(e, Vacuum(n, horizon)), DB.DbStep(a, Vacuum(n, horizon)))
  {
    hide HeapRel, LogRel, TxRel, ValidMgr, Vacuumed, Spared;
    assert DB.DbStep(a, Vacuum(n, horizon)) == a;
    if n in e.heaps && SafeHorizon(e, horizon) {
      SafeSpares(e.mgr, e.txs, ById(e.heaps[n].versions), a.txs, horizon);
      VacuumRelated(e, a, n, horizon);
    }
  }

  // ---- checkpoint ----

  ghost function RowMap(vs: seq<Ver>): Rows { map k | k in ById(vs) :: ById(vs)[k].vals }

  function InsertsOf(n: Name, vs: seq<Ver>): seq<Record> {
    seq(|vs|, i requires 0 <= i < |vs| => Record.Insert(n, vs[i].id, vs[i].vals))
  }

  lemma {:induction false} ReplayInserts(n: Name, k: Name, m: Rows, vs: seq<Ver>)
    ensures Replay(n, m, InsertsOf(k, vs)) == if k == n then m + RowMap(vs) else m
  {
    if vs == [] {
    } else {
      var w, v := vs[..|vs| - 1], vs[|vs| - 1];
      ReplayInserts(n, k, m, w);
      assert InsertsOf(k, vs)[..|vs| - 1] == InsertsOf(k, w);
      assert RowMap(vs) == RowMap(w)[v.id := v.vals];
    }
  }

  /** Replaying one table's scan puts its rows there, once or once more, and leaves the others alone. */
  lemma ReplayTable(e: State, s: Snapshot, self: TxID, k: Name, n: Name, m: Rows, rows: Rows)
    requires n in e.heaps && RowMap(ScanVersions(e.heaps[n].versions, s, e.mgr.status, self)) == rows && (m == map[] || m == rows)
    ensures Replay(n, m, TableRecords(e, s, self, k)) == if k == n then rows else m
  {
    hide RowMap, ScanVersions, Replay;
    if k in e.heaps {
      var vs := ScanVersions(e.heaps[k].versions, s, e.mgr.status, self);
      assert TableRecords(e, s, self, k) == InsertsOf(k, vs);
      ReplayInserts(n, k, m, vs);
      assert rows + rows == rows && map[] + rows == rows;
    } else {
      ReplayNothing(n, m);
    }
  }

  lemma ReplayNothing(n: Name, m: Rows)
    ensures Replay(n, m, []) == m
  {}

  lemma {:induction false} ReplayCheckpoint(e: State, s: Snapshot, self: TxID, order: seq<Name>, n: Name, rows: Rows)
    requires n in e.heaps && RowMap(ScanVersions(e.heaps[n].versions, s, e.mgr.status, self)) == rows
    ensures Replay(n, map[], CheckpointRecords(e, s, self, order)) == if n in order then rows else map[]
  {
    hide RowMap, ScanVersions, Replay, TableRecords;
    if order == [] {
      ReplayNothing(n, map[]);
    } else {
      var w, k := order[..|order| - 1], order[|order| - 1];
      ReplayCheckpoint(e, s, self, w, n, rows);
      ReplayAppend(n, map[], CheckpointRecords(e, s, self, w), TableRecords(e, s, self, k));
      ReplayTable(e, s, self, k, n, if n in w then rows else map[], rows);
      assert n in order <==> n in w || n == k;
    }
  }

  /** The versions a live transaction sees, key by key, are its view. */
  lemma ViewPointwise(m: Mgr, txs: map<TxID, TxState>, h: map<RowID, Ver>, atxs: map<TxID, DB.Tx>, tab: DB.Tab, t: TxID)
    requires ValidMgr(m) && TxsRel(m, txs, atxs) && RowsRel(m, txs, h, atxs, tab) && LiveTx(txs, t)
    ensures forall k :: k in DB.View(tab, t) <==> k in h && Visible(h[k], txs[t].snap, m.status, t)
    ensures forall k :: k in DB.View(tab, t) ==> DB.View(tab, t)[k] == h[k].vals
  {
    hide OneDeleter, IdsBelow, CommittedRel;
    assert TxRel(m, txs[t], t, atxs[t]);
    assert SnapRel(DB.Snap(tab, t), h, txs[t].snap, m.status) && InsRel(DB.Ins(tab, t), h, t);
    forall k | k in h ensures VersionOk(h[k], k, tab.nextRow, m, txs.Keys) && (k in DB.Del(tab, t) <==> h[k].xmax == t) {}
  }

  lemma HeapScan(m: Mgr, txs: map<TxID, TxState>, hs: HeapState, atxs: map<TxID, DB.Tx>, tab: DB.Tab, t: TxID)
    requires ValidMgr(m) && TxsRel(m, txs, atxs) && HeapRel(m, txs, hs, atxs, tab) && LiveTx(txs, t)
    ensures var out := ScanVersions(hs.versions, txs[t].snap, m.status, t);
            Ascending(out) && RowMap(out) == DB.View(tab, t)
  {
    hide DelRel, OneDeleter, IdsBelow, CommittedRel, SnapOk, ValidMgr, RowsRel, Visible;
    ScanSubseq(hs.versions, txs[t].snap, m.status, t);
    ViewPointwise(m, txs, ById(hs.versions), atxs, tab, t);
  }

  lemma TableReplaced(e: State, a: DB.Db, t: TxID, order: seq<Name>, f: State, b: DB.Db, n: Name)
    requires ValidMgr(e.mgr) && TxsRel(e.mgr, e.txs, a.txs) && TableRel(e, a, n) && n in order
    requires LiveTx(e.txs, t) && e.dirty && f == Replaced(e, t, order) && n in b.tabs && b.txs.Keys == a.txs.Keys
    requires forall u :: u in a.txs ==> b.txs[u].outcome == a.txs[u].outcome
    requires b.tabs[n] == DB.ReplacedTab(a.tabs[n], t)
    ensures TableRel(f, b, n)
  {
    hide RowsRel, PendingRel, TxRel, ValidMgr, ScanVersions, Recover, DB.View;
    RowsFrame(e.mgr, e.txs, f.txs, ById(e.heaps[n].versions), a.txs, b.txs, a.tabs[n], b.tabs[n]);
    LogReplaced(e, a, t, order, f, n);
    forall u ensures DB.Ins(b.tabs[n], u) == DB.Ins(a.tabs[n], u) && DB.Del(b.tabs[n], u) == DB.Del(a.tabs[n], u) {}
  }

  lemma LogReplaced(e: State, a: DB.Db, t: TxID, order: seq<Name>, f: State, n: Name)
    requires ValidMgr(e.mgr) && TxsRel(e.mgr, e.txs, a.txs) && TableRel(e, a, n) && n in order
    requires LiveTx(e.txs, t) && e.dirty && f == Replaced(e, t, order)
    ensures Recover(n, f.log) == DB.View(a.tabs[n], t)
  {
    hide HeapRel, LogRel, TxRel, ValidMgr, ScanVersions, DB.View;
    var s := e.txs[t].snap;
    HeapScan(e.mgr, e.txs, e.heaps[n], a.txs, a.tabs[n], t);
    ReplayCheckpoint(e, s, t, order, n, DB.View(a.tabs[n], t));
    var recs := CheckpointRecords(e, s, t, order);
    assert [recs][..0] == [] && Flatten<Record>([]) == [];
    assert Flatten([recs]) == Flatten([recs][..0]) + recs == recs;
  }

  lemma TxsReplaced(m: Mgr, txs: map<TxID, TxState>, atxs: map<TxID, DB.Tx>, atxs': map<TxID, DB.Tx>)
    requires TxsRel(m, txs, atxs) && atxs'.Keys == atxs.Keys
    requires forall t :: t in atxs ==> atxs'[t].ctl == atxs[t].ctl && atxs'[t].outcome == atxs[t].outcome && atxs'[t].wrote == atxs[t].wrote
    ensures TxsRel(m, txs, atxs')
  {
    hide SnapOk;
    forall t | t in txs ensures TxRel(m, txs[t], t, atxs'[t]) { assert TxRel(m, txs[t], t, atxs[t]); }
  }

  lemma StepReplace(e: State, a: DB.Db, t: TxID, order: seq<Name>)
    requires Related(e, a)
    ensures Related(Step(e, ReplaceLog(t, order)), DB.DbStep(a, ReplaceLog(t, order)))
  {
    hide HeapRel, LogRel, SnapOk, CheckpointRecords, DB.ReplacedTab, DB.View;
    var f, b := Step(e, ReplaceLog(t, order)), DB.DbStep(a, ReplaceLog(t, order));
    WritersAgree(e, a, t);
    assert CanReplace(e, t, order) <==> DB.CanReplace(a, t, order);
    if CanReplace(e, t, order) && e.dirty {
      TxsReplaced(e.mgr, e.txs, a.txs, b.txs);
      forall n | n in e.heaps ensures TableRel(f, b, n) {
        assert TableRel(e, a, n);
        TableReplaced(e, a, t, order, f, b, n);
      }
    } else {
      Unchanged(e, f, a, b);
    }
  }

  // ---- crash ----

  const BOOTED := Finished(Issued(EMPTY_MGR), BOOT, Committed)

  /** Recovery's heap holds the durable rows, all committed by the boot transaction. */
  lemma HeapLoaded(tab: DB.Tab)
    ensures HeapRel(BOOTED, map[], LoadHeap(tab.durable), map[], DB.CrashTab(tab))
  {
    hide LoadRows, SortedIds, Ascending, ById;
    var rows := tab.durable;
    LoadRowsShape(rows, SortedIds(rows.Keys));
    assert BOOTED == Mgr(2, map[BOOT := Committed], {});
    LoadedRows(LoadHeap(rows), rows, DB.CrashTab(tab));
  }

  lemma LoadedRows(hs: HeapState, rows: Rows, tab: DB.Tab)
    requires BOOTED == Mgr(2, map[BOOT := Committed], {})
    requires forall k :: k in ById(hs.versions) <==> k in rows
    requires forall k :: k in rows ==> k < hs.nextRow && ById(hs.versions)[k] == Ver(k, BOOT, INVALID_TX, rows[k])
    requires tab.committed == rows && tab.nextRow == hs.nextRow && tab.del == map[]
    ensures RowsRel(BOOTED, map[], ById(hs.versions), map[], tab)
  {
    hide ById, Issued, Finished;
    var h := ById(hs.versions);
    forall k | k in h ensures VersionOk(h[k], k, hs.nextRow, BOOTED, {}) && LiveNow(h[k], BOOTED.status) {}
  }

  lemma TableCrash(e: State, a: DB.Db, f: State, b: DB.Db, n: Name)
    requires TableRel(e, a, n) && f == Recovered(e.heaps.Keys, e.log)
    requires b.txs == map[] && n in b.tabs && b.tabs[n] == DB.CrashTab(a.tabs[n])
    ensures TableRel(f, b, n)
  {
    hide HeapRel, Recover, LoadHeap;
    HeapLoaded(a.tabs[n]);
  }

  lemma StepCrash(e: State, a: DB.Db)
    requires Related(e, a)
    ensures Related(Step(e, Crash), DB.DbStep(a, Crash))
  {
    hide HeapRel, LogRel, LoadHeap, DB.CrashTab;
    var f, b := Step(e, Crash), DB.DbStep(a, Crash);
    forall n | n in e.heaps ensures TableRel(f, b, n) {
      assert TableRel(e, a, n);
      TableCrash(e, a, f, b, n);
    }
  }
}
