/** What a crash loses: the recovered rows are exactly the work of the transactions whose frame
    reached the log and was not replaced, and exactly when these rows are the committed ones. */
module Durability {
  import opened Values
  import opened Storage
  import opened Records
  import opened Engine
  import opened Refinement
  import opened RefinementSteps
  import opened Isolation
  import DB = SnapshotDb

  // ---- the rows a set of transactions leaves behind ----

  /** `k` was there when the engine started, or one of `ts` inserted it. */
  ghost predicate Has(tab: DB.Tab, ts: set<TxID>, k: RowID) {
    k in tab.base || exists t :: t in ts && k in DB.Ins(tab, t)
  }

  ghost predicate Gone(tab: DB.Tab, ts: set<TxID>, k: RowID) {
    exists t :: t in ts && k in DB.Del(tab, t)
  }

  /** `rows` are the rows at the start, with exactly the changes of `ts` applied. */
  ghost predicate WorkOf(rows: Rows, tab: DB.Tab, ts: set<TxID>) {
    && (forall k :: k in rows <==> Has(tab, ts, k) && !Gone(tab, ts, k))
    && (forall k :: k in rows && k in tab.base ==> rows[k] == tab.base[k])
    && (forall k, t :: k in rows && t in ts && k in DB.Ins(tab, t) ==> rows[k] == DB.Ins(tab, t)[k])
  }

  function LandedIn(txs: map<TxID, DB.Tx>): set<TxID> { set t | t in txs && txs[t].landed }


  // ---- the invariant of one table ----

  predicate Disjoint(m: Rows, m': Rows) { forall k :: k in m ==> k !in m' }

  predicate Below(m: Rows, next: RowID) { forall k :: k in m ==> k < next }

  /** No row id is given out twice between two starts. */
  ghost predicate IdsDistinct(tab: DB.Tab) {
    && Below(tab.base, tab.nextRow)
    && (forall t :: Below(DB.Ins(tab, t), tab.nextRow) && Disjoint(DB.Ins(tab, t), tab.base))
    && (forall t, u :: t != u ==> Disjoint(DB.Ins(tab, t), DB.Ins(tab, u)))
  }

  ghost predicate OwnOrHas(tab: DB.Tab, done: set<TxID>, own: Rows, ids: set<RowID>) {
    forall k :: k in ids ==> k in own || Has(tab, done, k)
  }

  /** A transaction reads and deletes only its own inserts and rows that were committed. */
  ghost predicate ReadsCommitted(tab: DB.Tab, done: set<TxID>) {
    && (forall t :: OwnOrHas(tab, done, map[], DB.Snap(tab, t).Keys))
    && (forall t :: OwnOrHas(tab, done, DB.Ins(tab, t), DB.Del(tab, t)))
  }

  ghost predicate TabOk(tab: DB.Tab, txs: map<TxID, DB.Tx>) {
    && IdsDistinct(tab)
    && tab.ins.Keys <= txs.Keys && tab.del.Keys <= txs.Keys
    && ReadsCommitted(tab, DB.CommittedOf(txs))
    && WorkOf(tab.committed, tab, DB.CommittedOf(txs))
    && WorkOf(tab.durable, tab, LandedIn(txs))
  }

  ghost predicate TxOk(x: DB.Tx) {
    && (x.outcome == InProgress <==> x.ctl.stage != Done)
    && (x.ctl.stage == Running ==> !x.landed && !x.dropped)
    && !(x.landed && x.dropped)
  }

  /** A commit is in the log unless a replacement left it out; short of a failed sync, nothing aborted is. */
  ghost predicate Acknowledged(a: DB.Db, x: DB.Tx) {
    && (x.outcome == Committed || x.ctl.stage == Flushed ==> x.landed || x.dropped)
    && (a.open && x.outcome == Aborted ==> !x.landed)
  }

  /** A transaction in progress sees only committed ones. */
  ghost predicate SeesCommitted(txs: map<TxID, DB.Tx>) {
    forall t :: t in txs && txs[t].outcome == InProgress ==> txs[t].sees <= DB.CommittedOf(txs)
  }

  /** Its snapshot of a table is exactly their work. */
  ghost predicate SnapsOk(tab: DB.Tab, txs: map<TxID, DB.Tx>) {
    forall t :: t in txs && txs[t].outcome == InProgress ==> WorkOf(DB.Snap(tab, t), tab, txs[t].sees)
  }

  ghost predicate DbOk(a: DB.Db) {
    && (forall t :: t in a.txs ==> TxOk(a.txs[t]) && Acknowledged(a, a.txs[t]))
    && SeesCommitted(a.txs)
    && (forall n :: n in a.tabs ==> TabOk(a.tabs[n], a.txs) && Quiet(a.tabs[n], a.txs) && SnapsOk(a.tabs[n], a.txs))
  }

  /** A transaction with nothing to flush has changed nothing. */
  ghost predicate Quiet(tab: DB.Tab, txs: map<TxID, DB.Tx>) {
    forall t :: t in txs && !txs[t].wrote ==> DB.Ins(tab, t) == map[] && DB.Del(tab, t) == {}
  }

  // ---- each change keeps it ----

  lemma WorkApplied(rows: Rows, tab: DB.Tab, ts: set<TxID>, done: set<TxID>, t: TxID)
    requires WorkOf(rows, tab, ts) && IdsDistinct(tab) && ReadsCommitted(tab, done)
    requires t !in ts && t !in done
    ensures WorkOf(DB.Changed(rows, DB.Ins(tab, t), DB.Del(tab, t)), tab, ts + {t})
  {
    hide DB.Ins, DB.Del, DB.Snap;
    var rows' := DB.Changed(rows, DB.Ins(tab, t), DB.Del(tab, t));
    forall k ensures k in rows' <==> Has(tab, ts + {t}, k) && !Gone(tab, ts + {t}, k) {
      OriginGrows(tab, ts, t, k);
      if k in DB.Ins(tab, t) {
        forall u | u in ts ensures k !in DB.Del(tab, u) { InsertedIsOwn(tab, done, t, u, k); }
      }
    }
  }

  /** Only its inserter deletes a row before the insert has committed. */
  lemma InsertedIsOwn(tab: DB.Tab, done: set<TxID>, t: TxID, u: TxID, k: RowID)
    requires IdsDistinct(tab) && ReadsCommitted(tab, done) && t !in done && u != t && k in DB.Ins(tab, t)
    ensures k !in DB.Del(tab, u)
  {
    hide DB.Ins, DB.Del, DB.Snap;
    assert Disjoint(DB.Ins(tab, t), DB.Ins(tab, u)) && Disjoint(DB.Ins(tab, t), tab.base);
    assert forall w :: w in done ==> Disjoint(DB.Ins(tab, t), DB.Ins(tab, w));
    assert OwnOrHas(tab, done, DB.Ins(tab, u), DB.Del(tab, u));
  }

  lemma OriginGrows(tab: DB.Tab, ts: set<TxID>, t: TxID, k: RowID)
    ensures Has(tab, ts + {t}, k) <==> Has(tab, ts, k) || k in DB.Ins(tab, t)
    ensures Gone(tab, ts + {t}, k) <==> Gone(tab, ts, k) || k in DB.Del(tab, t)
  {}

  /** A table whose inserts and deletions are the same has the same work. */
  lemma WorkSame(rows: Rows, tab: DB.Tab, tab': DB.Tab, ts: set<TxID>)
    requires WorkOf(rows, tab, ts) && tab'.base == tab.base
    requires forall u :: u in ts ==> DB.Ins(tab', u) == DB.Ins(tab, u) && DB.Del(tab', u) == DB.Del(tab, u)
    ensures WorkOf(rows, tab', ts)
  {
    hide DB.Ins, DB.Del;
    forall k ensures Has(tab', ts, k) == Has(tab, ts, k) && Gone(tab', ts, k) == Gone(tab, ts, k) {}
  }

  lemma HasSame(tab: DB.Tab, tab': DB.Tab, ts: set<TxID>, ts': set<TxID>, k: RowID)
    requires Has(tab, ts, k) && tab'.base == tab.base && ts <= ts'
    requires forall u :: u in ts ==> DB.Ins(tab', u) == DB.Ins(tab, u)
    ensures Has(tab', ts', k)
  {
    hide DB.Ins;
    if k !in tab.base {
      var t :| t in ts && k in DB.Ins(tab, t);
      assert t in ts' && k in DB.Ins(tab', t);
    }
  }

  lemma SameSets(txs: map<TxID, DB.Tx>, txs': map<TxID, DB.Tx>, t: TxID)
    requires txs'.Keys == txs.Keys + {t}
    requires t !in txs ==> txs'[t].outcome != Committed && !txs'[t].landed
    requires t in txs ==> (txs'[t].outcome == Committed <==> txs[t].outcome == Committed) && txs'[t].landed == txs[t].landed
    requires forall u :: u in txs && u != t ==> txs'[u] == txs[u]
    ensures DB.CommittedOf(txs') == DB.CommittedOf(txs) && LandedIn(txs') == LandedIn(txs)
  {}

  /** `t`, which is in neither set, changed only its own inserts, deletions and snapshot. */
  lemma OwnChange(tab: DB.Tab, tab': DB.Tab, done: set<TxID>, landed: set<TxID>, t: TxID)
    requires ReadsCommitted(tab, done) && WorkOf(tab.committed, tab, done) && WorkOf(tab.durable, tab, landed)
    requires t !in done && t !in landed
    requires tab'.base == tab.base && tab'.committed == tab.committed && tab'.durable == tab.durable
    requires forall u :: u != t ==> DB.Ins(tab', u) == DB.Ins(tab, u) && DB.Del(tab', u) == DB.Del(tab, u) && DB.Snap(tab', u) == DB.Snap(tab, u)
    requires OwnOrHas(tab, done, map[], DB.Snap(tab', t).Keys)
    requires OwnOrHas(tab, done, DB.Ins(tab', t), DB.Del(tab', t))
    ensures ReadsCommitted(tab', done) && WorkOf(tab'.committed, tab', done) && WorkOf(tab'.durable, tab', landed)
  {
    hide DB.Ins, DB.Del, DB.Snap, Gone, WorkOf, Has;
    forall k | Has(tab, done, k) ensures Has(tab', done, k) { HasSame(tab, tab', done, done, k); }
    WorkSame(tab.committed, tab, tab', done);
    WorkSame(tab.durable, tab, tab', landed);
  }

  lemma InsertOk(tab: DB.Tab, txs: map<TxID, DB.Tx>, txs': map<TxID, DB.Tx>, t: TxID, vals: Row)
    requires TabOk(tab, txs) && t in txs && TxOk(txs[t]) && txs[t].ctl.stage == Running
    requires txs' == txs[t := DB.WroteTx(txs[t])]
    ensures TabOk(DB.InsertTab(tab, t, vals), txs')
  {
    hide Has, Gone, WorkOf, IdsDistinct;
    var tab', done := DB.InsertTab(tab, t, vals), DB.CommittedOf(txs);
    SameSets(txs, txs', t);
    InsertReads(tab, t, vals);
    assert DB.Snap(tab', t) == DB.Snap(tab, t) && DB.Del(tab', t) == DB.Del(tab, t);
    OwnChange(tab, tab', done, LandedIn(txs), t);
  }

  lemma InsertReads(tab: DB.Tab, t: TxID, vals: Row)
    requires IdsDistinct(tab)
    ensures IdsDistinct(DB.InsertTab(tab, t, vals))
  {
    var tab' := DB.InsertTab(tab, t, vals);
    assert forall u :: DB.Ins(tab', u) == if u == t then DB.With(DB.Ins(tab, t), tab.nextRow, vals) else DB.Ins(tab, u);
  }

  lemma DeleteOk(tab: DB.Tab, txs: map<TxID, DB.Tx>, txs': map<TxID, DB.Tx>, t: TxID, id: RowID)
    requires TabOk(tab, txs) && t in txs && TxOk(txs[t]) && txs[t].ctl.stage == Running
    requires id in DB.View(tab, t) || id in DB.Del(tab, t)
    requires txs' == txs[t := DB.WroteTx(txs[t])]
    ensures TabOk(DB.DeleteTab(tab, t, id), txs')
  {
    hide Has, Gone, WorkOf, IdsDistinct;
    var tab', done := DB.DeleteTab(tab, t, id), DB.CommittedOf(txs);
    SameSets(txs, txs', t);
    DistinctSame(tab, tab');
    assert id in DB.Ins(tab, t) || Has(tab, done, id);
    OwnChange(tab, tab', done, LandedIn(txs), t);
  }

  lemma DistinctSame(tab: DB.Tab, tab': DB.Tab)
    requires IdsDistinct(tab) && tab'.base == tab.base && tab'.nextRow == tab.nextRow
    requires forall u :: DB.Ins(tab', u) == DB.Ins(tab, u)
    ensures IdsDistinct(tab')
  {
    hide DB.Ins;
  }

  lemma OpenOk(tab: DB.Tab, txs: map<TxID, DB.Tx>, txs': map<TxID, DB.Tx>, t: TxID, x: DB.Tx)
    requires TabOk(tab, txs) && t !in txs && x.outcome == InProgress && !x.landed
    requires txs' == txs[t := x]
    ensures TabOk(DB.OpenTab(tab, t), txs')
  {
    hide Has, Gone, IdsDistinct, WorkOf;
    var tab', done := DB.OpenTab(tab, t), DB.CommittedOf(txs);
    SameSets(txs, txs', t);
    DistinctSame(tab, tab');
    CommittedHas(tab, done);
    OwnChange(tab, tab', done, LandedIn(txs), t);
  }

  lemma CommittedHas(tab: DB.Tab, done: set<TxID>)
    requires WorkOf(tab.committed, tab, done)
    ensures OwnOrHas(tab, done, map[], tab.committed.Keys)
  {}

  lemma RefreshOk(tab: DB.Tab, txs: map<TxID, DB.Tx>, txs': map<TxID, DB.Tx>, t: TxID)
    requires TabOk(tab, txs) && t in txs && TxOk(txs[t]) && txs[t].ctl.stage == Running
    requires txs'.Keys == txs.Keys && DB.CommittedOf(txs') == DB.CommittedOf(txs) && LandedIn(txs') == LandedIn(txs)
    ensures TabOk(DB.RefreshTab(tab, t), txs')
  {
    hide Has, Gone, IdsDistinct, WorkOf;
    var tab', done := DB.RefreshTab(tab, t), DB.CommittedOf(txs);
    DistinctSame(tab, tab');
    CommittedHas(tab, done);
    OwnChange(tab, tab', done, LandedIn(txs), t);
  }

  /** The transactions move on without either set changing. */
  lemma IdleOk(tab: DB.Tab, txs: map<TxID, DB.Tx>, txs': map<TxID, DB.Tx>)
    requires TabOk(tab, txs) && txs.Keys <= txs'.Keys
    requires DB.CommittedOf(txs') == DB.CommittedOf(txs) && LandedIn(txs') == LandedIn(txs)
    ensures TabOk(tab, txs')
  {}

  lemma LandOk(tab: DB.Tab, txs: map<TxID, DB.Tx>, txs': map<TxID, DB.Tx>, t: TxID)
    requires TabOk(tab, txs) && t in txs && TxOk(txs[t]) && txs[t].ctl.stage == Running
    requires txs'.Keys == txs.Keys && DB.CommittedOf(txs') == DB.CommittedOf(txs)
    requires LandedIn(txs') == LandedIn(txs) + {t}
    ensures TabOk(DB.LandTab(tab, t), txs')
  {
    hide Has, Gone, DB.Changed;
    WorkApplied(tab.durable, tab, LandedIn(txs), DB.CommittedOf(txs), t);
    TabFields(tab, DB.LandTab(tab, t), DB.CommittedOf(txs));
    WorkSame(tab.committed, tab, DB.LandTab(tab, t), DB.CommittedOf(txs'));
    WorkSame(DB.LandTab(tab, t).durable, tab, DB.LandTab(tab, t), LandedIn(txs'));
  }

  lemma TabFields(tab: DB.Tab, tab': DB.Tab, done: set<TxID>)
    requires IdsDistinct(tab) && ReadsCommitted(tab, done)
    requires tab'.base == tab.base && tab'.ins == tab.ins && tab'.del == tab.del && tab'.snap == tab.snap && tab'.nextRow == tab.nextRow
    ensures IdsDistinct(tab') && ReadsCommitted(tab', done)
  {
    hide Has;
    assert forall u :: DB.Ins(tab', u) == DB.Ins(tab, u);
    DistinctSame(tab, tab');
    assert forall u :: DB.Snap(tab', u) == DB.Snap(tab, u) && DB.Del(tab', u) == DB.Del(tab, u);
    forall k | Has(tab, done, k) ensures Has(tab', done, k) { HasSame(tab, tab', done, done, k); }
  }

  lemma ReadsMore(tab: DB.Tab, done: set<TxID>, t: TxID)
    requires ReadsCommitted(tab, done)
    ensures ReadsCommitted(tab, done + {t})
  {
    hide Has;
    forall k | Has(tab, done, k) ensures Has(tab, done + {t}, k) { HasSame(tab, tab, done, done + {t}, k); }
  }

  lemma CommitOk(tab: DB.Tab, txs: map<TxID, DB.Tx>, txs': map<TxID, DB.Tx>, t: TxID)
    requires TabOk(tab, txs) && t in txs && txs[t].outcome != Committed
    requires txs'.Keys == txs.Keys && LandedIn(txs') == LandedIn(txs)
    requires DB.CommittedOf(txs') == DB.CommittedOf(txs) + {t}
    ensures TabOk(DB.CommitTab(tab, t), txs')
  {
    hide Has, Gone, WorkOf, IdsDistinct, ReadsCommitted, DB.Changed;
    var tab', done := DB.CommitTab(tab, t), DB.CommittedOf(txs);
    WorkApplied(tab.committed, tab, done, done, t);
    TabFields(tab, tab', done);
    ReadsMore(tab', done, t);
    WorkSame(tab.durable, tab, tab', LandedIn(txs'));
    WorkSame(tab'.committed, tab, tab', done + {t});
  }

  /** Replacing the log leaves in it exactly the transactions its snapshot saw. */
  lemma ReplacedOk(tab: DB.Tab, txs: map<TxID, DB.Tx>, txs': map<TxID, DB.Tx>, t: TxID)
    requires TabOk(tab, txs) && Quiet(tab, txs) && t in txs && !txs[t].wrote
    requires WorkOf(DB.Snap(tab, t), tab, txs[t].sees)
    requires txs'.Keys == txs.Keys && DB.CommittedOf(txs') == DB.CommittedOf(txs) && LandedIn(txs') == txs[t].sees
    ensures TabOk(DB.ReplacedTab(tab, t), txs')
  {
    hide Has, Gone, WorkOf, IdsDistinct, ReadsCommitted;
    var tab' := DB.ReplacedTab(tab, t);
    QuietView(tab, txs, t);
    TabFields(tab, tab', DB.CommittedOf(txs));
    assert forall u :: DB.Ins(tab', u) == DB.Ins(tab, u) && DB.Del(tab', u) == DB.Del(tab, u);
    WorkSame(tab.committed, tab, tab', DB.CommittedOf(txs));
    WorkSame(tab'.durable, tab, tab', txs[t].sees);
  }

  lemma QuietView(tab: DB.Tab, txs: map<TxID, DB.Tx>, t: TxID)
    requires Quiet(tab, txs) && t in txs && !txs[t].wrote
    ensures DB.View(tab, t) == DB.Snap(tab, t)
  {}

  lemma FreshOk(rows: Rows)
    ensures TabOk(FreshTab(rows), map[])
  {
    hide Ascending, LoadHeap;
    FreshIds(rows);
    var tab := FreshTab(rows);
    assert forall t :: DB.Ins(tab, t) == map[] && DB.Snap(tab, t) == map[] && DB.Del(tab, t) == {};
  }

  lemma FreshIds(rows: Rows)
    ensures forall k :: k in rows ==> k < LoadHeap(rows).nextRow
  {
    hide Ascending, LoadRows, ById;
    LoadRowsShape(rows, SortedIds(rows.Keys));
    assert forall k :: k in rows ==> k in ById(LoadHeap(rows).versions);
  }

  // ---- every event keeps it ----

  /** The transactions after an event. */
  lemma ControlOk(a: DB.Db, ev: Event)
    requires DbOk(a)
    ensures var c := DB.ControlStep(a, ev); forall t :: t in c.txs ==> TxOk(c.txs[t]) && Acknowledged(c, c.txs[t])
  {
    hide TabOk, Quiet, SnapsOk, DB.Taken, DB.View, Covers, LandedIn;
    var c := DB.ControlStep(a, ev);
    forall t | t in c.txs ensures TxOk(c.txs[t]) && Acknowledged(c, c.txs[t]) {
      if t in a.txs { assert TxOk(a.txs[t]) && Acknowledged(a, a.txs[t]); }
    }
  }

  /** An outcome is final until the next start. */
  lemma OutcomeStays(a: DB.Db, ev: Event, t: TxID)
    requires ev != Crash && t in a.txs && TxOk(a.txs[t]) && a.txs[t].outcome != InProgress
    ensures var c := DB.ControlStep(a, ev); t in c.txs && TxOk(c.txs[t]) ==> c.txs[t].outcome == a.txs[t].outcome
    ensures t in DB.ControlStep(a, ev).txs
  {
    hide DB.Taken, DB.View, Covers, DB.Lands, DB.FlushOk;
  }

  /** The statement takes a snapshot for `t`. */
  ghost predicate Snapshots(a: DB.Db, ev: Event, t: TxID) {
    || (ev.Open? && ev.t == t && t in a.begun && t !in a.txs)
    || (ev == NextStatement(t) && DB.CanWrite(a, t) && a.txs[t].ctl.iso == ReadCommitted)
  }

  /** Who a transaction in progress sees changes only when it takes a snapshot. */
  lemma SeesStays(a: DB.Db, ev: Event, t: TxID)
    requires ev != Crash
    requires t in DB.ControlStep(a, ev).txs && DB.ControlStep(a, ev).txs[t].outcome == InProgress
    ensures var x := DB.ControlStep(a, ev).txs[t];
            if Snapshots(a, ev, t) then x.sees == DB.CommittedOf(a.txs)
            else t in a.txs && a.txs[t].outcome == InProgress && x.sees == a.txs[t].sees
  {
    hide DB.Taken, DB.View, Covers, DB.Lands, DB.FlushOk, DB.CommittedOf;
  }

  lemma SnapStays(a: DB.Db, ev: Event, n: Name, t: TxID)
    requires ev != Crash && n in a.tabs
    ensures DB.Snap(DB.TabStep(a, ev, n), t) == if Snapshots(a, ev, t) then a.tabs[n].committed else DB.Snap(a.tabs[n], t)
  {
    hide DB.CanDelete, Covers, DB.Lands, DB.FlushOk, DB.Changed, DB.CrashTab, DB.View, DB.With;
  }

  lemma SeesStep(a: DB.Db, ev: Event)
    requires DbOk(a)
    ensures SeesCommitted(DB.ControlStep(a, ev).txs)
  {
    hide TabOk, Quiet, SnapsOk, DB.ControlStep, DB.TabStep, Snapshots;
    var c := DB.ControlStep(a, ev);
    if ev != Crash {
      ControlOk(a, ev);
      forall t | t in DB.CommittedOf(a.txs) ensures t in DB.CommittedOf(c.txs) { OutcomeStays(a, ev, t); }
      forall t | t in c.txs && c.txs[t].outcome == InProgress ensures c.txs[t].sees <= DB.CommittedOf(c.txs) { SeesStays(a, ev, t); }
    } else {
      assert c.txs == map[] by { CrashForgets(a); }
    }
  }

  lemma CrashForgets(a: DB.Db)
    ensures DB.ControlStep(a, Crash).txs == map[]
  {}

  /** What a finished transaction did to a table stays as it is. */
  lemma WorkStays(a: DB.Db, ev: Event, n: Name, t: TxID)
    requires n in a.tabs && ev != Crash && t in a.txs && TxOk(a.txs[t]) && a.txs[t].outcome != InProgress
    ensures var tab, tab' := a.tabs[n], DB.TabStep(a, ev, n);
            tab'.base == tab.base && DB.Ins(tab', t) == DB.Ins(tab, t) && DB.Del(tab', t) == DB.Del(tab, t)
  {
    hide Covers, DB.Taken, DB.View, DB.Changed, DB.CrashTab, DB.FlushOk, DB.Lands;
  }

  lemma TabBase(a: DB.Db, ev: Event, n: Name)
    requires n in a.tabs && ev != Crash
    ensures DB.TabStep(a, ev, n).base == a.tabs[n].base
  {}

  lemma SnapsStep(a: DB.Db, ev: Event, n: Name)
    requires DbOk(a) && n in a.tabs
    ensures SnapsOk(DB.TabStep(a, ev, n), DB.ControlStep(a, ev).txs)
  {
    hide DB.ControlStep, DB.TabStep, WorkOf, IdsDistinct, ReadsCommitted, Quiet, DB.Snap, Snapshots;
    var tab, tab', c := a.tabs[n], DB.TabStep(a, ev, n), DB.ControlStep(a, ev);
    if ev == Crash {
      CrashForgets(a);
    } else {
      TabBase(a, ev, n);
      forall w | w in DB.CommittedOf(a.txs) ensures DB.Ins(tab', w) == DB.Ins(tab, w) && DB.Del(tab', w) == DB.Del(tab, w) {
        WorkStays(a, ev, n, w);
      }
      forall t | t in c.txs && c.txs[t].outcome == InProgress ensures WorkOf(DB.Snap(tab', t), tab', c.txs[t].sees) {
        SeesStays(a, ev, t);
        SnapStays(a, ev, n, t);
        assert c.txs[t].sees <= DB.CommittedOf(a.txs) && WorkOf(DB.Snap(tab', t), tab, c.txs[t].sees);
        WorkSame(DB.Snap(tab', t), tab, tab', c.txs[t].sees);
      }
    }
  }

  lemma IdleStep(tab: DB.Tab, txs: map<TxID, DB.Tx>, txs': map<TxID, DB.Tx>, t: TxID)
    requires TabOk(tab, txs) && t in txs && txs'.Keys == txs.Keys
    requires forall u :: u in txs && u != t ==> txs'[u] == txs[u]
    requires (txs'[t].outcome == Committed <==> txs[t].outcome == Committed) && txs'[t].landed == txs[t].landed
    ensures TabOk(tab, txs')
  {
    hide TabOk, DB.CommittedOf, LandedIn;
    SameSets(txs, txs', t);
    IdleOk(tab, txs, txs');
  }

  lemma FlushTabOk(a: DB.Db, t: TxID, io: Io, tab: DB.Tab)
    requires TabOk(tab, a.txs) && Quiet(tab, a.txs) && DB.CanWrite(a, t) && TxOk(a.txs[t])
    ensures TabOk(if DB.Lands(a, t, io) then DB.LandTab(tab, t) else tab, DB.FlushControl(a, t, io).txs)
  {
    hide TabOk, DB.CommittedOf, LandedIn, DB.Ins, DB.Del;
    var txs' := DB.FlushControl(a, t, io).txs;
    if DB.Lands(a, t, io) || DB.FlushOk(a, t, io) {
      LandedSets(a.txs, txs', t);
      LandOk(tab, a.txs, txs', t);
      if !DB.Lands(a, t, io) { assert DB.LandTab(tab, t) == tab; }
    } else {
      IdleStep(tab, a.txs, txs', t);
    }
  }

  lemma LandedSets(txs: map<TxID, DB.Tx>, txs': map<TxID, DB.Tx>, t: TxID)
    requires t in txs && txs'.Keys == txs.Keys && txs'[t].landed
    requires txs'[t].outcome != Committed && txs[t].outcome != Committed
    requires forall u :: u in txs && u != t ==> txs'[u] == txs[u]
    ensures DB.CommittedOf(txs') == DB.CommittedOf(txs) && LandedIn(txs') == LandedIn(txs) + {t}
  {}

  lemma CommitSets(txs: map<TxID, DB.Tx>, txs': map<TxID, DB.Tx>, t: TxID)
    requires t in txs && txs'.Keys == txs.Keys && txs'[t].landed == txs[t].landed && txs'[t].outcome == Committed
    requires forall u :: u in txs && u != t ==> txs'[u] == txs[u]
    ensures DB.CommittedOf(txs') == DB.CommittedOf(txs) + {t} && LandedIn(txs') == LandedIn(txs)
  {}

  lemma ReplacedSets(a: DB.Db, t: TxID)
    requires t in a.txs && a.txs[t].sees <= a.txs.Keys
    ensures var txs' := DB.ReplacedControl(a, t).txs;
            txs'.Keys == a.txs.Keys && DB.CommittedOf(txs') == DB.CommittedOf(a.txs) && LandedIn(txs') == a.txs[t].sees
  {}

  lemma RefreshedSets(txs: map<TxID, DB.Tx>, t: TxID, sees: set<TxID>)
    requires t in txs
    ensures var txs' := txs[t := DB.RefreshedTx(txs[t], sees)];
            DB.CommittedOf(txs') == DB.CommittedOf(txs) && LandedIn(txs') == LandedIn(txs)
  {}

  lemma QuietControl(a: DB.Db, ev: Event, t: TxID)
    requires var c := DB.ControlStep(a, ev); t in c.txs && !c.txs[t].wrote
    ensures t in a.txs ==> !a.txs[t].wrote
    ensures t !in a.txs ==> ev.Open?
  {
    hide Covers, DB.Taken, DB.View, DB.Lands, DB.FlushOk;
  }

  /** A step leaves alone the changes of a transaction that has written nothing after it. */
  lemma QuietTab(a: DB.Db, ev: Event, n: Name, t: TxID)
    requires n in a.tabs && ev != Crash && t in a.txs
    requires var c := DB.ControlStep(a, ev); t in c.txs && !c.txs[t].wrote
    ensures var tab, tab' := a.tabs[n], DB.TabStep(a, ev, n);
            DB.Ins(tab', t) == DB.Ins(tab, t) && DB.Del(tab', t) == DB.Del(tab, t)
  {
    hide Covers, DB.Taken, DB.View, DB.Changed, DB.CrashTab, DB.FlushOk, DB.Lands;
  }

  lemma QuietStep(a: DB.Db, ev: Event, n: Name)
    requires n in a.tabs && Quiet(a.tabs[n], a.txs)
    ensures Quiet(DB.TabStep(a, ev, n), DB.ControlStep(a, ev).txs)
  {
    hide DB.CanDelete, DB.CanWrite, DB.CrashTab, Covers;
    var c, tab' := DB.ControlStep(a, ev), DB.TabStep(a, ev, n);
    if ev != Crash {
      forall t | t in c.txs && !c.txs[t].wrote ensures DB.Ins(tab', t) == map[] && DB.Del(tab', t) == {} {
        QuietControl(a, ev, t);
        if t in a.txs { QuietTab(a, ev, n, t); }
      }
    }
  }

  lemma CrashOk(tab: DB.Tab)
    ensures TabOk(DB.CrashTab(tab), map[])
  {
    hide TabOk;
    FreshOk(tab.durable);
    assert DB.CrashTab(tab) == FreshTab(tab.durable);
  }

  /** A transaction's own work and end. */
  predicate OwnStep(ev: Event) {
    ev.InsertRow? || ev.DeleteRow? || ev.Fail? || ev.Flush? || ev.FinishCommit? || ev.Rollback?
  }

  lemma OwnStepOk(a: DB.Db, ev: Event, n: Name)
    requires DbOk(a) && n in a.tabs && OwnStep(ev)
    ensures TabOk(DB.TabStep(a, ev, n), DB.ControlStep(a, ev).txs)
  {
    hide TabOk, DB.CommittedOf, LandedIn, Covers, Acknowledged, DB.Taken, DB.View, DB.Del, DB.CrashTab, Quiet,
         DB.OpenTab, DB.RefreshTab, DB.LandTab, DB.CommitTab, DB.ReplacedTab, DB.InsertTab, DB.DeleteTab, SnapsOk, WorkOf;
    var tab, c := a.tabs[n], DB.ControlStep(a, ev);
    match ev
    case InsertRow(t, m, vals) =>
      if DB.CanWrite(a, t) {
        if m == n { InsertOk(tab, a.txs, c.txs, t, vals); } else { IdleStep(tab, a.txs, c.txs, t); }
      }
    case DeleteRow(t, m, id) =>
      if DB.CanDelete(a, t, m, id) {
        if m == n { DeleteOk(tab, a.txs, c.txs, t, id); } else { IdleStep(tab, a.txs, c.txs, t); }
      }
    case Fail(t) => if t in a.txs { IdleStep(tab, a.txs, c.txs, t); }
    case Flush(t, io) => if DB.CanWrite(a, t) { FlushTabOk(a, t, io, tab); }
    case FinishCommit(t) =>
      if t in a.txs && a.txs[t].ctl.stage == Flushed {
        CommitSets(a.txs, c.txs, t);
        CommitOk(tab, a.txs, c.txs, t);
      }
    case Rollback(t) => if t in a.txs { IdleStep(tab, a.txs, c.txs, t); }
  }

  lemma TabStepOk(a: DB.Db, ev: Event, n: Name)
    requires DbOk(a) && n in a.tabs
    ensures TabOk(DB.TabStep(a, ev, n), DB.ControlStep(a, ev).txs)
  {
    hide TabOk, DB.CommittedOf, LandedIn, Covers, Acknowledged, DB.Taken, DB.View, DB.Del, DB.CrashTab, Quiet,
         DB.OpenTab, DB.RefreshTab, DB.LandTab, DB.CommitTab, DB.ReplacedTab, DB.InsertTab, DB.DeleteTab, SnapsOk, WorkOf;
    var tab, c := a.tabs[n], DB.ControlStep(a, ev);
    match ev
    case Begin =>
    case Open(t, iso) =>
      if t in a.begun && t !in a.txs { OpenOk(tab, a.txs, c.txs, t, c.txs[t]); }
    case NextStatement(t) =>
      if DB.CanWrite(a, t) && a.txs[t].ctl.iso == ReadCommitted {
        RefreshedSets(a.txs, t, DB.CommittedOf(a.txs));
        RefreshOk(tab, a.txs, c.txs, t);
      }
    case Vacuum(m, horizon) =>
    case ReplaceLog(t, order) =>
      if DB.CanReplace(a, t, order) && a.dirty {
        SeenAreKnown(a, t);
        ReplacedSets(a, t);
        assert WorkOf(DB.Snap(tab, t), tab, a.txs[t].sees) by { SnapIsWork(a, t, n); }
        ReplacedOk(tab, a.txs, c.txs, t);
      }
    case Crash =>
      CrashOk(tab);
    case _ => OwnStepOk(a, ev, n);
  }

  lemma SeenAreKnown(a: DB.Db, t: TxID)
    requires DbOk(a) && t in a.txs && a.txs[t].ctl.stage == Running
    ensures a.txs[t].sees <= a.txs.Keys
  {
    hide TabOk, Quiet, SnapsOk;
    assert TxOk(a.txs[t]);
  }

  lemma SnapIsWork(a: DB.Db, t: TxID, n: Name)
    requires DbOk(a) && n in a.tabs && t in a.txs && a.txs[t].ctl.stage == Running
    ensures WorkOf(DB.Snap(a.tabs[n], t), a.tabs[n], a.txs[t].sees)
  {
    hide TabOk, Quiet, WorkOf;
    assert TxOk(a.txs[t]) && SnapsOk(a.tabs[n], a.txs);
  }

  lemma StepOk(a: DB.Db, ev: Event)
    requires DbOk(a)
    ensures DbOk(DB.DbStep(a, ev))
  {
    hide TabOk, Quiet, SnapsOk, DB.TabStep, DB.ControlStep, TxOk, Acknowledged, SeesCommitted;
    forall n | n in a.tabs ensures var tab', txs' := DB.TabStep(a, ev, n), DB.ControlStep(a, ev).txs;
                                   TabOk(tab', txs') && Quiet(tab', txs') && SnapsOk(tab', txs') {
      TabStepOk(a, ev, n);
      QuietStep(a, ev, n);
      SnapsStep(a, ev, n);
    }
    SeesStep(a, ev);
    ControlOk(a, ev);
    SameControl(DB.ControlStep(a, ev), DB.DbStep(a, ev));
  }

  lemma SameControl(c: DB.Db, b: DB.Db)
    requires c.txs == b.txs && c.open == b.open
    requires forall t :: t in c.txs ==> TxOk(c.txs[t]) && Acknowledged(c, c.txs[t])
    ensures forall t :: t in b.txs ==> TxOk(b.txs[t]) && Acknowledged(b, b.txs[t])
  {}

  lemma {:induction false} RunOk(a: DB.Db, evs: seq<Event>)
    requires DbOk(a)
    ensures DbOk(DB.DbRun(a, evs))
  {
    hide DbOk, DB.DbStep;
    if evs != [] {
      RunOk(a, evs[..|evs| - 1]);
      StepOk(DB.DbRun(a, evs[..|evs| - 1]), evs[|evs| - 1]);
    }
  }

  lemma StartOk(names: set<Name>, log: seq<seq<Record>>)
    ensures DbOk(FreshDb(names, log))
  {
    hide TabOk, FreshTab, Recover;
    forall n | n in names ensures TabOk(FreshTab(Recover(n, log)), map[]) { FreshOk(Recover(n, log)); }
  }

  // ---- main results ----

  /** After any run from any log, with crashes and checkpoints anywhere, the rows recovery would
      rebuild are the rows of the last start with exactly the changes of the landed transactions. */
  lemma RecoveryIsLandedWork(names: set<Name>, log: seq<seq<Record>>, evs: seq<Event>, n: Name)
    requires n in names
    ensures var e, a := Run(Recovered(names, log), evs), DB.DbRun(FreshDb(names, log), evs);
            n in a.tabs && WorkOf(Recover(n, e.log), a.tabs[n], LandedIn(a.txs))
  {
    hide Run, DB.DbRun, Recovered, FreshDb, WorkOf, LandedIn, Recover;
    RecoveryIsExact(names, log, evs, n);
    StartOk(names, log);
    RunOk(FreshDb(names, log), evs);
  }

  // ---- which transactions are in the log ----

  /** Event `i` writes `t`'s buffer to an intact log but fails to sync it. */
  ghost predicate FailsToSync(names: set<Name>, log: seq<seq<Record>>, evs: seq<Event>, i: nat, t: TxID)
    requires i < |evs|
  {
    var e := Run(Recovered(names, log), evs[..i]);
    evs[i] == Flush(t, SyncFailed) && Statement(e, t) && e.txs[t].pending != [] && e.open
  }

  /** Event `j` starts over from the log, or writes a new one. */
  ghost predicate StartsOver(names: set<Name>, log: seq<seq<Record>>, evs: seq<Event>, j: nat)
    requires j < |evs|
  {
    var e := Run(Recovered(names, log), evs[..j]);
    evs[j] == Crash || (evs[j].ReplaceLog? && CanReplace(e, evs[j].t, evs[j].order) && e.dirty)
  }

  /** `t` failed to sync, and nothing has started over since. */
  ghost predicate Resurrects(names: set<Name>, log: seq<seq<Record>>, evs: seq<Event>, t: TxID) {
    exists i :: 0 <= i < |evs| && FailsToSync(names, log, evs, i, t)
                && forall j :: i < j < |evs| ==> !StartsOver(names, log, evs, j)
  }

  ghost predicate AbortedInLog(a: DB.Db, t: TxID) { t in a.txs && a.txs[t].outcome == Aborted && a.txs[t].landed }

  /** One event puts an aborted transaction in the log, or keeps it there. */
  lemma AbortedStep(a: DB.Db, ev: Event, t: TxID)
    requires DbOk(a)
    ensures AbortedInLog(DB.DbStep(a, ev), t) <==>
            || (ev == Flush(t, SyncFailed) && DB.CanWrite(a, t) && a.txs[t].wrote && a.open)
            || (AbortedInLog(a, t) && ev != Crash && !(ev.ReplaceLog? && DB.CanReplace(a, ev.t, ev.order) && a.dirty))
  {
    hide TabOk, Quiet, SnapsOk, DB.ControlStep, DB.TabStep, Acknowledged, DB.CanReplace;
    if ev.ReplaceLog? { AbortedReplaced(a, ev.t, ev.order, t); } else { AbortedKept(a, ev, t); }
    assert DB.DbStep(a, ev).txs == DB.ControlStep(a, ev).txs;
  }

  lemma AbortedReplaced(a: DB.Db, u: TxID, order: seq<Name>, t: TxID)
    requires DbOk(a)
    ensures AbortedInLog(DB.ControlStep(a, ReplaceLog(u, order)), t) <==> AbortedInLog(a, t) && !(DB.CanReplace(a, u, order) && a.dirty)
  {
    hide TabOk, Quiet, SnapsOk, Acknowledged, Covers;
    if DB.CanReplace(a, u, order) { assert TxOk(a.txs[u]); }
  }

  lemma AbortedKept(a: DB.Db, ev: Event, t: TxID)
    requires DbOk(a) && !ev.ReplaceLog?
    ensures AbortedInLog(DB.ControlStep(a, ev), t) <==>
            || (ev == Flush(t, SyncFailed) && DB.CanWrite(a, t) && a.txs[t].wrote && a.open)
            || (AbortedInLog(a, t) && ev != Crash)
  {
    hide TabOk, Quiet, SnapsOk, SeesCommitted, DB.Taken, DB.View, Acknowledged, DB.CommittedOf;
    if t in a.txs { assert TxOk(a.txs[t]); }
  }

  /** Over every run, an aborted transaction is in the log if and only if the write of its commit was not
      synced and neither a restart nor a replacement of the log has come since. */
  lemma {:induction false} AbortedInLogIff(names: set<Name>, log: seq<seq<Record>>, evs: seq<Event>, t: TxID)
    ensures AbortedInLog(DB.DbRun(FreshDb(names, log), evs), t) <==> Resurrects(names, log, evs, t)
  {
    hide Recovered, FreshDb, Related, DbOk, Step, DB.DbStep, Statement, CanReplace, DB.CanReplace, AbortedInLog, DB.CanWrite;
    if evs == [] {
      assert !AbortedInLog(FreshDb(names, log), t) by { NobodyAborted(names, log, t); }
    } else {
      var n := |evs| - 1;
      var before, e, a := evs[..n], Run(Recovered(names, log), evs[..n]), DB.DbRun(FreshDb(names, log), evs[..n]);
      AbortedInLogIff(names, log, before, t);
      StartRelated(names, log);
      StartOk(names, log);
      RunRefines(Recovered(names, log), FreshDb(names, log), before);
      RunOk(FreshDb(names, log), before);
      AbortedStep(a, evs[n], t);
      GuardsAgree(e, a, evs[n], t);
      ResurrectsNext(names, log, evs, t);
    }
  }

  lemma NobodyAborted(names: set<Name>, log: seq<seq<Record>>, t: TxID)
    ensures !AbortedInLog(FreshDb(names, log), t)
  {}

  /** The engine and the reference agree on what fails to sync and what starts over. */
  lemma GuardsAgree(e: State, a: DB.Db, ev: Event, t: TxID)
    requires Related(e, a)
    ensures (Statement(e, t) && e.txs[t].pending != [] && e.open) <==> (DB.CanWrite(a, t) && a.txs[t].wrote && a.open)
    ensures ev.ReplaceLog? ==> ((CanReplace(e, ev.t, ev.order) && e.dirty) <==> (DB.CanReplace(a, ev.t, ev.order) && a.dirty))
  {
    hide TableRel, TxsRel, ValidMgr, SnapOk;
    WritersAgree(e, a, t);
    if ev.ReplaceLog? { WritersAgree(e, a, ev.t); }
  }

  lemma ResurrectsNext(names: set<Name>, log: seq<seq<Record>>, evs: seq<Event>, t: TxID)
    requires evs != []
    ensures var n := |evs| - 1;
            Resurrects(names, log, evs, t) <==>
              FailsToSync(names, log, evs, n, t) || (Resurrects(names, log, evs[..n], t) && !StartsOver(names, log, evs, n))
  {
    hide Run, Recovered, Statement, CanReplace;
    var n := |evs| - 1;
    var before := evs[..n];
    forall i | 0 <= i < n
      ensures FailsToSync(names, log, before, i, t) == FailsToSync(names, log, evs, i, t)
              && StartsOver(names, log, before, i) == StartsOver(names, log, evs, i)
    {
      assert before[..i] == evs[..i];
    }
    if Resurrects(names, log, before, t) && !StartsOver(names, log, evs, n) {
      var i :| 0 <= i < n && FailsToSync(names, log, before, i, t) && forall j :: i < j < n ==> !StartsOver(names, log, before, j);
      assert FailsToSync(names, log, evs, i, t) && forall j :: i < j < |evs| ==> !StartsOver(names, log, evs, j);
    }
    if Resurrects(names, log, evs, t) && !FailsToSync(names, log, evs, n, t) {
      var i :| 0 <= i < |evs| && FailsToSync(names, log, evs, i, t) && forall j :: i < j < |evs| ==> !StartsOver(names, log, evs, j);
      assert FailsToSync(names, log, before, i, t) && forall j :: i < j < n ==> !StartsOver(names, log, before, j);
    }
  }

  /** Durable before visible: a committed transaction is in the log unless a replacement left it out, and
      an aborted one exactly if it failed to sync and nothing has started over since. */
  lemma CommittedIsDurable(names: set<Name>, log: seq<seq<Record>>, evs: seq<Event>, t: TxID)
    requires t in DB.DbRun(FreshDb(names, log), evs).txs
    ensures var a := DB.DbRun(FreshDb(names, log), evs);
            && (a.txs[t].outcome == Committed ==> (a.txs[t].landed <==> !a.txs[t].dropped))
            && (a.txs[t].outcome == Aborted ==> (a.txs[t].landed <==> Resurrects(names, log, evs, t)))
  {
    hide DB.DbRun, FreshDb, TabOk, Quiet, SnapsOk, SeesCommitted, Resurrects;
    StartOk(names, log);
    RunOk(FreshDb(names, log), evs);
    AbortedInLogIff(names, log, evs, t);
  }

  // ---- when recovery gives back the committed rows ----

  /** What `u` did no longer shows: nothing it inserted is among the rows of those that count it, and
      nothing it deleted is among the rows of those that do not. */
  ghost predicate Void(tab: DB.Tab, u: TxID, counted: Rows, uncounted: Rows) {
    && (forall k :: k in DB.Ins(tab, u) ==> k !in counted)
    && (forall k :: k in DB.Del(tab, u) ==> k !in uncounted)
  }

  /** Two sets of transactions leave the same rows if and only if what each has over the other is void. */
  lemma SameWorkIff(rows: Rows, rows': Rows, tab: DB.Tab, ts: set<TxID>, ts': set<TxID>)
    requires WorkOf(rows, tab, ts) && WorkOf(rows', tab, ts') && IdsDistinct(tab)
    ensures rows == rows' <==>
            && (forall u :: u in ts - ts' ==> Void(tab, u, rows, rows'))
            && (forall u :: u in ts' - ts ==> Void(tab, u, rows', rows))
  {
    hide DB.Ins, DB.Del, WorkOf, Has, Gone, IdsDistinct;
    if rows == rows' {
      forall u | u in ts - ts' ensures Void(tab, u, rows, rows') { ExtraIsVoid(rows, tab, ts, ts', u); }
      forall u | u in ts' - ts ensures Void(tab, u, rows', rows) { ExtraIsVoid(rows, tab, ts', ts, u); }
    }
    if (forall u :: u in ts - ts' ==> Void(tab, u, rows, rows')) && (forall u :: u in ts' - ts ==> Void(tab, u, rows', rows)) {
      VoidIsNothing(rows, rows', tab, ts, ts');
      VoidIsNothing(rows', rows, tab, ts', ts);
      forall k | k in rows ensures rows[k] == rows'[k] { SameRow(rows, rows', tab, ts, ts', k); }
    }
  }

  lemma ExtraIsVoid(rows: Rows, tab: DB.Tab, ts: set<TxID>, ts': set<TxID>, u: TxID)
    requires WorkOf(rows, tab, ts) && WorkOf(rows, tab, ts') && IdsDistinct(tab) && u in ts - ts'
    ensures Void(tab, u, rows, rows)
  {
    hide DB.Ins, DB.Del;
    forall k | k in DB.Ins(tab, u) ensures k !in rows {
      assert Disjoint(DB.Ins(tab, u), tab.base);
      assert forall w :: w in ts' ==> Disjoint(DB.Ins(tab, u), DB.Ins(tab, w));
      assert !Has(tab, ts', k);
    }
    forall k | k in DB.Del(tab, u) ensures k !in rows { assert Gone(tab, ts, k); }
  }

  lemma VoidIsNothing(rows: Rows, rows': Rows, tab: DB.Tab, ts: set<TxID>, ts': set<TxID>)
    requires WorkOf(rows, tab, ts) && WorkOf(rows', tab, ts')
    requires forall u :: u in ts - ts' ==> Void(tab, u, rows, rows')
    requires forall u :: u in ts' - ts ==> Void(tab, u, rows', rows)
    ensures forall k :: k in rows ==> k in rows'
  {
    hide DB.Ins, DB.Del;
    forall k | k in rows ensures k in rows' {
      assert Has(tab, ts', k) by {
        if k !in tab.base {
          var u :| u in ts && k in DB.Ins(tab, u);
          assert u in ts - ts' ==> Void(tab, u, rows, rows');
          assert u in ts';
        }
      }
      forall u | u in ts' ensures k !in DB.Del(tab, u) {
        assert u in ts' - ts ==> Void(tab, u, rows', rows);
      }
    }
  }

  lemma SameRow(rows: Rows, rows': Rows, tab: DB.Tab, ts: set<TxID>, ts': set<TxID>, k: RowID)
    requires WorkOf(rows, tab, ts) && WorkOf(rows', tab, ts') && IdsDistinct(tab) && k in rows && k in rows'
    ensures rows[k] == rows'[k]
  {
    hide DB.Ins, DB.Del, Gone;
    if k !in tab.base {
      assert Has(tab, ts, k) && Has(tab, ts', k);
      var u :| u in ts && k in DB.Ins(tab, u);
      var w :| w in ts' && k in DB.Ins(tab, w);
      assert u != w ==> Disjoint(DB.Ins(tab, u), DB.Ins(tab, w));
    }
  }

  /** What `u`, one of `mine` and not of `others`, did comes to nothing: each row it inserted was deleted
      by one of `mine`, and each row it deleted either was deleted by one of the others too or was
      inserted by one that is not among them. */
  ghost predicate Harmless(tab: DB.Tab, mine: set<TxID>, others: set<TxID>, u: TxID) {
    && (forall k :: k in DB.Ins(tab, u) ==> Gone(tab, mine, k))
    && (forall k :: k in DB.Del(tab, u) ==> Gone(tab, others, k) || InsertedBy(tab, mine - others, k))
  }

  ghost predicate InsertedBy(tab: DB.Tab, ts: set<TxID>, k: RowID) { exists w :: w in ts && k in DB.Ins(tab, w) }

  lemma HarmlessIff(rows: Rows, rows': Rows, tab: DB.Tab, ts: set<TxID>, ts': set<TxID>, u: TxID)
    requires WorkOf(rows, tab, ts) && WorkOf(rows', tab, ts') && IdsDistinct(tab) && u in ts - ts'
    requires forall k :: k in DB.Del(tab, u) ==> Has(tab, ts, k) || Has(tab, ts', k)
    ensures Void(tab, u, rows, rows') <==> Harmless(tab, ts, ts', u)
  {
    hide DB.Ins, DB.Del, IdsDistinct, WorkOf;
    forall k | k in DB.Ins(tab, u) ensures k !in rows <==> Gone(tab, ts, k) {
      assert Has(tab, ts, k);
      assert k in rows <==> Has(tab, ts, k) && !Gone(tab, ts, k) by { WorkRow(rows, tab, ts, k); }
    }
    forall k | k in DB.Del(tab, u) ensures k !in rows' <==> Gone(tab, ts', k) || InsertedBy(tab, ts - ts', k) {
      WorkRow(rows', tab, ts', k);
      LackedIff(tab, ts, ts', k);
    }
  }

  lemma WorkRow(rows: Rows, tab: DB.Tab, ts: set<TxID>, k: RowID)
    requires WorkOf(rows, tab, ts)
    ensures k in rows <==> Has(tab, ts, k) && !Gone(tab, ts, k)
  {
    hide Has, Gone;
  }

  /** A row that one of two sets of transactions has is lacked by the other exactly if one of the first alone inserted it. */
  lemma LackedIff(tab: DB.Tab, ts: set<TxID>, ts': set<TxID>, k: RowID)
    requires IdsDistinct(tab) && (Has(tab, ts, k) || Has(tab, ts', k))
    ensures !Has(tab, ts', k) <==> InsertedBy(tab, ts - ts', k)
  {
    hide DB.Ins;
    if InsertedBy(tab, ts - ts', k) {
      var w :| w in ts - ts' && k in DB.Ins(tab, w);
      assert Disjoint(DB.Ins(tab, w), tab.base);
      assert forall x :: x in ts' ==> Disjoint(DB.Ins(tab, w), DB.Ins(tab, x));
    }
    if !Has(tab, ts', k) {
      var w :| w in ts && k in DB.Ins(tab, w);
      assert w in ts - ts';
    }
  }

  /** What a committed or a landed transaction deleted had been there. */
  lemma DeletedWasThere(tab: DB.Tab, done: set<TxID>, landed: set<TxID>, u: TxID, k: RowID)
    requires ReadsCommitted(tab, done) && u in done + landed && k in DB.Del(tab, u)
    ensures Has(tab, done, k) || Has(tab, landed, k)
  {
    hide DB.Ins, DB.Del, DB.Snap;
    assert OwnOrHas(tab, done, DB.Ins(tab, u), DB.Del(tab, u));
  }

  /** A crash anywhere in any run restarts a table with the rows that were committed if and only if what
      was committed and is not in the log, and what is in the log and was not committed, is harmless. */
  lemma RecoveryIsCommittedIff(names: set<Name>, log: seq<seq<Record>>, evs: seq<Event>, n: Name)
    requires n in names
    ensures var e, a := Run(Recovered(names, log), evs), DB.DbRun(FreshDb(names, log), evs);
            var done, landed := DB.CommittedOf(a.txs), LandedIn(a.txs);
            && n in a.tabs
            && (Recover(n, e.log) == a.tabs[n].committed <==>
                && (forall u :: u in done - landed ==> Harmless(a.tabs[n], done, landed, u))
                && (forall u :: u in landed - done ==> Harmless(a.tabs[n], landed, done, u)))
  {
    hide Run, DB.DbRun, Recovered, FreshDb, WorkOf, IdsDistinct, ReadsCommitted, Recover, Quiet, SnapsOk, Void, Harmless,
         DB.CommittedOf, LandedIn, DB.Del, Has;
    RecoveryIsLandedWork(names, log, evs, n);
    StartOk(names, log);
    RunOk(FreshDb(names, log), evs);
    var e, a := Run(Recovered(names, log), evs), DB.DbRun(FreshDb(names, log), evs);
    assert TabOk(a.tabs[n], a.txs);
    var tab, rec, done, landed := a.tabs[n], Recover(n, e.log), DB.CommittedOf(a.txs), LandedIn(a.txs);
    SameWorkIff(tab.committed, rec, tab, done, landed);
    forall u, k | u in done + landed && k in DB.Del(tab, u) ensures Has(tab, done, k) || Has(tab, landed, k) {
      DeletedWasThere(tab, done, landed, u, k);
    }
    forall u | u in done - landed ensures Void(tab, u, tab.committed, rec) == Harmless(tab, done, landed, u) {
      HarmlessIff(tab.committed, rec, tab, done, landed, u);
    }
    forall u | u in landed - done ensures Void(tab, u, rec, tab.committed) == Harmless(tab, landed, done, u) {
      HarmlessIff(rec, tab.committed, tab, landed, done, u);
    }
  }

  function DroppedOf(txs: map<TxID, DB.Tx>): set<TxID> { set t | t in txs && txs[t].outcome == Committed && txs[t].dropped }

  ghost predicate AtRest(a: DB.Db) { a.open && forall t :: t in a.txs ==> a.txs[t].ctl.stage != Flushed }

  /** With the log intact and no commit half done, the log holds exactly the commits no replacement left out. */
  lemma RestIsLanded(a: DB.Db)
    requires DbOk(a) && AtRest(a)
    ensures LandedIn(a.txs) <= DB.CommittedOf(a.txs) && DB.CommittedOf(a.txs) - LandedIn(a.txs) == DroppedOf(a.txs)
  {
    hide TabOk, Quiet, SnapsOk, SeesCommitted;
    forall u | u in a.txs ensures TxOk(a.txs[u]) && Acknowledged(a, a.txs[u]) {}
  }

  /** What `u`, a commit that was left out, did has been undone: each row it inserted was deleted by a
      commit, and each row it deleted had been inserted by a commit left out like it. */
  ghost predicate Undone(tab: DB.Tab, done: set<TxID>, out: set<TxID>, u: TxID) {
    && (forall k :: k in DB.Ins(tab, u) ==> Gone(tab, done, k))
    && (forall k :: k in DB.Del(tab, u) ==> InsertedBy(tab, out, k))
  }

  /** A commit may have changed a table and be undone all the same, for one if it deleted exactly what it
      had inserted. */
  lemma ChangedYetUndone(tab: DB.Tab, done: set<TxID>, out: set<TxID>, u: TxID)
    requires u in done && u in out && DB.Ins(tab, u).Keys == DB.Del(tab, u)
    ensures Undone(tab, done, out, u)
  {}

  /** Since only one commit deletes a row, harmless and undone are the same for a commit left out. */
  lemma HarmlessIsUndone(txs: map<TxID, DB.Tx>, tab: DB.Tab, done: set<TxID>, landed: set<TxID>, u: TxID)
    requires OneDeleter(txs, tab) && done == DB.CommittedOf(txs) && landed <= done && u in done - landed
    ensures Harmless(tab, done, landed, u) <==> Undone(tab, done, done - landed, u)
  {
    hide DB.Ins, DB.Del, InsertedBy;
    forall k | k in DB.Del(tab, u) ensures !Gone(tab, landed, k) {
      forall w | w in landed ensures k !in DB.Del(tab, w) {
        assert k in DB.Del(tab, w) ==> Deletes(txs, tab, w, k) && Deletes(txs, tab, u, k);
      }
    }
  }

  lemma OneDeleterRun(names: set<Name>, log: seq<seq<Record>>, evs: seq<Event>, n: Name)
    requires n in DB.DbRun(FreshDb(names, log), evs).tabs
    ensures var a := DB.DbRun(FreshDb(names, log), evs); OneDeleter(a.txs, a.tabs[n])
  {
    hide Run, DB.DbRun, Recovered, FreshDb, RowsRel, LogRel, OneDeleter;
    StartRelated(names, log);
    RunRefines(Recovered(names, log), FreshDb(names, log), evs);
    var e, a := Run(Recovered(names, log), evs), DB.DbRun(FreshDb(names, log), evs);
    assert TableRel(e, a, n);
    OneDeleterHolds(e.mgr, e.txs, e.heaps[n], a.txs, a.tabs[n]);
  }

  /** With the log intact and no commit half done, a crash loses nothing and invents nothing if and only
      if every commit that replacements left out has been undone. */
  lemma CrashLosesNothingIff(names: set<Name>, log: seq<seq<Record>>, evs: seq<Event>, n: Name)
    requires n in names && AtRest(DB.DbRun(FreshDb(names, log), evs))
    ensures var e, a := Run(Recovered(names, log), evs), DB.DbRun(FreshDb(names, log), evs);
            && n in a.tabs
            && (Recover(n, e.log) == a.tabs[n].committed <==>
                forall u :: u in DroppedOf(a.txs) ==> Undone(a.tabs[n], DB.CommittedOf(a.txs), DroppedOf(a.txs), u))
  {
    hide Run, DB.DbRun, Recovered, FreshDb, DbOk, AtRest, Recover, Harmless, Undone, DB.CommittedOf, LandedIn, OneDeleter;
    StartOk(names, log);
    RunOk(FreshDb(names, log), evs);
    var a := DB.DbRun(FreshDb(names, log), evs);
    RestIsLanded(a);
    RecoveryIsCommittedIff(names, log, evs, n);
    OneDeleterRun(names, log, evs, n);
    var done, landed := DB.CommittedOf(a.txs), LandedIn(a.txs);
    assert landed - done == {};
    forall u | u in done - landed ensures Harmless(a.tabs[n], done, landed, u) == Undone(a.tabs[n], done, done - landed, u) {
      HarmlessIsUndone(a.txs, a.tabs[n], done, landed, u);
    }
  }

  /** In particular nothing is lost when no left out commit changed the table. */
  lemma CrashLosesNothing(names: set<Name>, log: seq<seq<Record>>, evs: seq<Event>, n: Name)
    requires n in names && AtRest(DB.DbRun(FreshDb(names, log), evs))
    requires var a := DB.DbRun(FreshDb(names, log), evs);
             n in a.tabs ==> forall u :: u in DroppedOf(a.txs) ==> DB.Ins(a.tabs[n], u) == map[] && DB.Del(a.tabs[n], u) == {}
    ensures var e, a := Run(Recovered(names, log), evs), DB.DbRun(FreshDb(names, log), evs);
            n in a.tabs && Recover(n, e.log) == a.tabs[n].committed
  {
    hide Run, DB.DbRun, Recovered, FreshDb, AtRest, Recover, DB.Ins, DB.Del, DroppedOf;
    CrashLosesNothingIff(names, log, evs, n);
  }

  /** A frame that was written but not synced stays in the log, so the aborted transaction is replayed. */
  lemma FailedSyncIsReplayed(names: set<Name>, log: seq<seq<Record>>, evs: seq<Event>, t: TxID, n: Name)
    requires n in names
    requires var a := DB.DbRun(FreshDb(names, log), evs);
             DB.CanWrite(a, t) && a.txs[t].wrote && a.open
    ensures var a := DB.DbRun(FreshDb(names, log), evs);
            var e', a' := Run(Recovered(names, log), evs + [Flush(t, SyncFailed)]), DB.DbRun(FreshDb(names, log), evs + [Flush(t, SyncFailed)]);
            && n in a.tabs && n in a'.tabs && t in a'.txs && a'.txs[t].outcome == Aborted && !a'.open
            && a'.tabs[n].committed == a.tabs[n].committed
            && Recover(n, e'.log) == DB.Changed(a.tabs[n].durable, DB.Ins(a.tabs[n], t), DB.Del(a.tabs[n], t))
  {
    hide Run, DB.DbRun, Recovered, FreshDb, Recover, DB.Changed;
    RecoveryIsExact(names, log, evs, n);
    RecoveryIsExact(names, log, evs + [Flush(t, SyncFailed)], n);
    DbRunAppend(FreshDb(names, log), evs, [Flush(t, SyncFailed)]);
    DbRunOne(DB.DbRun(FreshDb(names, log), evs), Flush(t, SyncFailed));
  }
}
