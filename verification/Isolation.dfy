/** Main results about storage: snapshot isolation and recovery over every run, with crashes. */
module Isolation {
  import opened Values
  import opened Storage
  import opened Records
  import opened Engine
  import opened Refinement
  import opened RefinementSteps
  import DB = SnapshotDb

  /** The reference database as recovery finds it in a log. */
  ghost function FreshDb(names: set<Name>, log: seq<seq<Record>>): DB.Db {
    DB.Db(2, {}, map[],
          map n | n in names :: FreshTab(Recover(n, log)), true, false)
  }

  ghost function FreshTab(rows: Rows): DB.Tab {
    DB.Tab(rows, rows, rows, LoadHeap(rows).nextRow, map[], map[], map[])
  }

  lemma StartRelated(names: set<Name>, log: seq<seq<Record>>)
    ensures Related(Recovered(names, log), FreshDb(names, log))
  {
    hide HeapRel, LoadHeap, Recover;
    var f, b := Recovered(names, log), FreshDb(names, log);
    forall n | n in names ensures TableRel(f, b, n) {
      HeapLoaded(b.tabs[n]);
    }
  }

  /** One event, on the engine and on the reference, keeps them related. */
  lemma StepRefines(e: State, a: DB.Db, ev: Event)
    requires Related(e, a)
    ensures Related(Step(e, ev), DB.DbStep(a, ev))
  {
    hide *;
    match ev
    case Begin => StepBegin(e, a);
    case Open(t, iso) => StepOpen(e, a, t, iso);
    case NextStatement(t) => StepNextStatement(e, a, t);
    case InsertRow(t, n, vals) => StepInsert(e, a, t, n, vals);
    case DeleteRow(t, n, id) => StepDelete(e, a, t, n, id);
    case Fail(t) => StepFail(e, a, t);
    case Flush(t, io) => StepFlush(e, a, t, io);
    case FinishCommit(t) => StepFinish(e, a, t);
    case Rollback(t) => StepRollback(e, a, t);
    case Vacuum(n, horizon) => StepVacuum(e, a, n, horizon);
    case ReplaceLog(t, order) => StepReplace(e, a, t, order);
    case Crash => StepCrash(e, a);
  }

  lemma {:induction false} RunRefines(e: State, a: DB.Db, evs: seq<Event>)
    requires Related(e, a)
    ensures Related(Run(e, evs), DB.DbRun(a, evs))
  {
    hide Related, Step, DB.DbStep;
    if evs != [] {
      RunRefines(e, a, evs[..|evs| - 1]);
      StepRefines(Run(e, evs[..|evs| - 1]), DB.DbRun(a, evs[..|evs| - 1]), evs[|evs| - 1]);
    }
  }

  /** A live transaction's scan is its view, ascending by row id, which is write order. */
  lemma ScanIsView(e: State, a: DB.Db, t: TxID, n: Name)
    requires Related(e, a) && LiveTx(e.txs, t) && n in e.heaps
    ensures Ascending(Scan(e, t, n)) && RowMap(Scan(e, t, n)) == DB.View(a.tabs[n], t)
  {
    hide HeapRel, LogRel, TxsRel, ValidMgr, RowMap, DB.View, ScanVersions;
    assert TableRel(e, a, n);
    HeapScan(e.mgr, e.txs, e.heaps[n], a.txs, a.tabs[n], t);
  }

  /** Snapshot isolation over every run from every log: each live transaction reads the rows that
      were committed when its snapshot was taken, with its own changes applied, in write order. */
  lemma SnapshotIsolation(names: set<Name>, log: seq<seq<Record>>, evs: seq<Event>, t: TxID, n: Name)
    requires LiveTx(Run(Recovered(names, log), evs).txs, t) && n in Run(Recovered(names, log), evs).heaps
    ensures var e, a := Run(Recovered(names, log), evs), DB.DbRun(FreshDb(names, log), evs);
            n in a.tabs && Ascending(Scan(e, t, n)) && RowMap(Scan(e, t, n)) == DB.View(a.tabs[n], t)
  {
    hide Run, DB.DbRun, Recovered, FreshDb, HeapRel, LogRel, DB.View, Scan, RowMap;
    StartRelated(names, log);
    RunRefines(Recovered(names, log), FreshDb(names, log), evs);
    ScanIsView(Run(Recovered(names, log), evs), DB.DbRun(FreshDb(names, log), evs), t, n);
  }

  /** Whose step an event is. */
  function Actor(ev: Event): Option<TxID> {
    match ev
    case Open(t, _) => Some(t)
    case NextStatement(t) => Some(t)
    case InsertRow(t, _, _) => Some(t)
    case DeleteRow(t, _, _) => Some(t)
    case Fail(t) => Some(t)
    case Flush(t, _) => Some(t)
    case FinishCommit(t) => Some(t)
    case Rollback(t) => Some(t)
    case _ => None
  }

  lemma SnapUntouched(a: DB.Db, ev: Event, t: TxID, n: Name)
    requires n in a.tabs && Actor(ev) != Some(t) && ev != Crash
    ensures DB.Snap(DB.TabStep(a, ev, n), t) == DB.Snap(a.tabs[n], t)
  {
    hide DB.CanDelete, DB.CanWrite, DB.Lands, DB.CrashTab, DB.Changed, Covers, DB.With, DB.View;
  }

  lemma InsertsUntouched(a: DB.Db, ev: Event, t: TxID, n: Name)
    requires n in a.tabs && Actor(ev) != Some(t) && ev != Crash
    ensures DB.Ins(DB.TabStep(a, ev, n), t) == DB.Ins(a.tabs[n], t)
  {
    hide DB.CanDelete, DB.CanWrite, DB.Lands, DB.CrashTab, DB.Changed, Covers, DB.With, DB.View;
  }

  lemma DeletesUntouched(a: DB.Db, ev: Event, t: TxID, n: Name)
    requires n in a.tabs && Actor(ev) != Some(t) && ev != Crash
    ensures DB.Del(DB.TabStep(a, ev, n), t) == DB.Del(a.tabs[n], t)
  {
    hide DB.CanDelete, DB.CanWrite, DB.Lands, DB.CrashTab, DB.Changed, Covers, DB.With, DB.View;
  }

  lemma ViewUntouched(a: DB.Db, ev: Event, t: TxID, n: Name)
    requires n in a.tabs && Actor(ev) != Some(t) && ev != Crash
    ensures DB.View(DB.DbStep(a, ev).tabs[n], t) == DB.View(a.tabs[n], t)
  {
    hide DB.ControlStep, DB.TabStep, Actor;
    SnapUntouched(a, ev, t, n);
    InsertsUntouched(a, ev, t, n);
    DeletesUntouched(a, ev, t, n);
  }

  /** No step of any other transaction, nor vacuum, nor a checkpoint, changes what `t` reads. */
  lemma ScanIsStable(e: State, a: DB.Db, ev: Event, t: TxID, n: Name)
    requires Related(e, a) && LiveTx(e.txs, t) && n in e.heaps
    requires Actor(ev) != Some(t) && ev != Crash && LiveTx(Step(e, ev).txs, t)
    ensures n in Step(e, ev).heaps && RowMap(Scan(Step(e, ev), t, n)) == RowMap(Scan(e, t, n))
  {
    hide Step, DB.DbStep, HeapRel, LogRel, TxsRel, RowMap, Scan, DB.View;
    StepRefines(e, a, ev);
    StepKeepsTables(a, ev);
    ScanIsView(e, a, t, n);
    ScanIsView(Step(e, ev), DB.DbStep(a, ev), t, n);
    ViewUntouched(a, ev, t, n);
  }

  lemma StepKeepsTables(a: DB.Db, ev: Event)
    ensures DB.DbStep(a, ev).tabs.Keys == a.tabs.Keys
  {}

  /** Of the transactions that have not aborted, at most one deleted a version. */
  lemma OneDeleterHolds(m: Mgr, txs: map<TxID, TxState>, hs: HeapState, atxs: map<TxID, DB.Tx>, tab: DB.Tab)
    requires HeapRel(m, txs, hs, atxs, tab)
    ensures OneDeleter(atxs, tab)
  {
    hide OneDeleter, ReadsRel, HeldRel, CommittedRel;
  }

  /** A crash at any step of any run: recovery rebuilds exactly the durable rows of the reference. */
  lemma RecoveryIsExact(names: set<Name>, log: seq<seq<Record>>, evs: seq<Event>, n: Name)
    requires n in names
    ensures var e, a := Run(Recovered(names, log), evs), DB.DbRun(FreshDb(names, log), evs);
            n in a.tabs && Recover(n, e.log) == a.tabs[n].durable
  {
    hide Recovered, FreshDb, HeapRel, Recover, Step, DB.DbStep;
    StartRelated(names, log);
    RunRefines(Recovered(names, log), FreshDb(names, log), evs);
    RunKeepsTables(FreshDb(names, log), evs);
    FreshTables(names, log);
    var e, a := Run(Recovered(names, log), evs), DB.DbRun(FreshDb(names, log), evs);
    assert TableRel(e, a, n);
  }

  lemma FreshTables(names: set<Name>, log: seq<seq<Record>>)
    ensures FreshDb(names, log).tabs.Keys == names
  {}

  lemma {:induction false} RunKeepsTables(a: DB.Db, evs: seq<Event>)
    ensures DB.DbRun(a, evs).tabs.Keys == a.tabs.Keys
  {
    hide DB.DbStep;
    if evs != [] {
      RunKeepsTables(a, evs[..|evs| - 1]);
      StepKeepsTables(DB.DbRun(a, evs[..|evs| - 1]), evs[|evs| - 1]);
    }
  }

  // ---- vacuum ----

  /** What a transaction reads from a table. */
  ghost function Reads(e: State, t: TxID, n: Name): Rows
    requires t in e.txs && n in e.heaps
  {
    RowMap(Scan(e, t, n))
  }

  /** A live transaction reads the same in both states. */
  ghost predicate ReadsAlike(e1: State, e2: State, t: TxID, m: Name) {
    LiveTx(e1.txs, t) && m in e1.heaps ==> LiveTx(e2.txs, t) && m in e2.heaps && Reads(e1, t, m) == Reads(e2, t, m)
  }

  /** Nobody can tell that the table was vacuumed: after any further events every live transaction reads
      what it would have read. */
  ghost predicate Unnoticed(e: State, n: Name, horizon: TxID)
    requires n in e.heaps
  {
    forall more, t, m :: ReadsAlike(Run(e, more), Run(Vacuumed(e, n, horizon), more), t, m)
  }

  /** A live transaction sees a version below the horizon whose deletion has committed since, by a
      transaction its snapshot does not count. */
  ghost predicate Endangers(e: State, n: Name, horizon: TxID)
    requires n in e.heaps
  {
    exists t, k :: LiveTx(e.txs, t) && Threatened(ById(e.heaps[n].versions), k, e.txs[t].snap, e.mgr.status, t, horizon)
  }

  predicate Threatened(h: map<RowID, Ver>, k: RowID, s: Snapshot, status: map<TxID, Status>, t: TxID, horizon: TxID) {
    && k in h && Visible(h[k], s, status, t)
    && h[k].xmax != INVALID_TX && h[k].xmax < horizon && Outcome(status, h[k].xmax) == Committed
  }

  /** What a live transaction sees was not written by an aborted one. */
  lemma SeenIsDead(m: Mgr, s: Snapshot, t: TxID, v: Ver, horizon: TxID)
    requires Outcome(m.status, t) == InProgress && Visible(v, s, m.status, t)
    ensures DeadTo(v, m.status, horizon) <==> v.xmax != INVALID_TX && v.xmax < horizon && Outcome(m.status, v.xmax) == Committed
  {}

  lemma EndangersIff(e: State, a: DB.Db, n: Name, horizon: TxID)
    requires Related(e, a) && n in e.heaps
    ensures Endangers(e, n, horizon) <==> !Spared(e.mgr, e.txs, ById(e.heaps[n].versions), horizon)
  {
    hide TableRel, ById, Visible, DeadTo, SnapOk, ValidMgr;
    var h := ById(e.heaps[n].versions);
    forall t, k | LiveTx(e.txs, t) && k in h && Visible(h[k], e.txs[t].snap, e.mgr.status, t)
      ensures DeadTo(h[k], e.mgr.status, horizon) <==> Threatened(h, k, e.txs[t].snap, e.mgr.status, t, horizon)
    {
      assert TxRel(e.mgr, e.txs[t], t, a.txs[t]);
      SeenIsDead(e.mgr, e.txs[t].snap, t, h[k], horizon);
    }
  }

  /** Two engines related to one reference read alike. */
  lemma RelatedReadAlike(e1: State, e2: State, a: DB.Db, t: TxID, m: Name)
    requires Related(e1, a) && Related(e2, a)
    ensures ReadsAlike(e1, e2, t, m)
  {
    hide TableRel, RowMap, Scan, DB.View, ValidMgr, SnapOk;
    if LiveTx(e1.txs, t) && m in e1.heaps {
      assert TxRel(e1.mgr, e1.txs[t], t, a.txs[t]) && TxRel(e2.mgr, e2.txs[t], t, a.txs[t]);
      ScanIsView(e1, a, t, m);
      ScanIsView(e2, a, t, m);
    }
  }

  lemma ThreatenedIsLost(e: State, a: DB.Db, n: Name, horizon: TxID, t: TxID, k: RowID)
    requires Related(e, a) && n in e.heaps && LiveTx(e.txs, t)
    requires Threatened(ById(e.heaps[n].versions), k, e.txs[t].snap, e.mgr.status, t, horizon)
    ensures !ReadsAlike(e, Vacuumed(e, n, horizon), t, n)
  {
    hide ById, Visible, ScanVersions, VacuumVersions, RowsRel, LogRel, ControlRel, Ascending;
    assert TableRel(e, a, n);
    var vs, f := e.heaps[n].versions, Vacuumed(e, n, horizon);
    ScanSubseq(vs, e.txs[t].snap, e.mgr.status, t);
    VacuumSubseq(vs, e.mgr.status, horizon);
    ScanSubseq(f.heaps[n].versions, e.txs[t].snap, e.mgr.status, t);
    assert k in Reads(e, t, n) && k !in Reads(f, t, n);
  }

  /** In any reachable state, vacuuming a table at any horizon whatever goes unnoticed, now and after any
      further events, if and only if no live transaction sees a version it endangers. */
  lemma VacuumUnnoticedIff(names: set<Name>, log: seq<seq<Record>>, evs: seq<Event>, n: Name, horizon: TxID)
    requires n in Run(Recovered(names, log), evs).heaps
    ensures var e := Run(Recovered(names, log), evs); Unnoticed(e, n, horizon) <==> !Endangers(e, n, horizon)
  {
    hide Run, DB.DbRun, Recovered, FreshDb, Related, Spared, Threatened, ReadsAlike, Vacuumed;
    StartRelated(names, log);
    RunRefines(Recovered(names, log), FreshDb(names, log), evs);
    var e, a := Run(Recovered(names, log), evs), DB.DbRun(FreshDb(names, log), evs);
    EndangersIff(e, a, n, horizon);
    if Endangers(e, n, horizon) {
      var t, k :| LiveTx(e.txs, t) && Threatened(ById(e.heaps[n].versions), k, e.txs[t].snap, e.mgr.status, t, horizon);
      ThreatenedIsLost(e, a, n, horizon, t, k);
      assert Run(e, []) == e && Run(Vacuumed(e, n, horizon), []) == Vacuumed(e, n, horizon) by { RunNone(e); RunNone(Vacuumed(e, n, horizon)); }
      assert !ReadsAlike(Run(e, []), Run(Vacuumed(e, n, horizon), []), t, n);
    } else {
      VacuumRelated(e, a, n, horizon);
      forall more, t, m ensures ReadsAlike(Run(e, more), Run(Vacuumed(e, n, horizon), more), t, m) {
        RunRefines(e, a, more);
        RunRefines(Vacuumed(e, n, horizon), a, more);
        RelatedReadAlike(Run(e, more), Run(Vacuumed(e, n, horizon), more), DB.DbRun(a, more), t, m);
      }
    }
  }

  lemma RunNone(e: State)
    ensures Run(e, []) == e
  {}

  /** In particular below a horizon no live snapshot reaches below. */
  lemma VacuumIsInvisible(names: set<Name>, log: seq<seq<Record>>, evs: seq<Event>, n: Name, horizon: TxID)
    requires var e := Run(Recovered(names, log), evs); n in e.heaps && SafeHorizon(e, horizon)
    ensures Unnoticed(Run(Recovered(names, log), evs), n, horizon)
  {
    hide Run, DB.DbRun, Recovered, FreshDb, HeapRel, LogRel, Spared, Endangers, Unnoticed, TxRel, ValidMgr;
    StartRelated(names, log);
    RunRefines(Recovered(names, log), FreshDb(names, log), evs);
    var e, a := Run(Recovered(names, log), evs), DB.DbRun(FreshDb(names, log), evs);
    SafeSpares(e.mgr, e.txs, ById(e.heaps[n].versions), a.txs, horizon);
    EndangersIff(e, a, n, horizon);
    VacuumUnnoticedIff(names, log, evs, n, horizon);
  }

  /** What `Horizon` may wrongly reclaim: a version a live snapshot sees is dead to a horizon no
      greater than its own transaction if and only if its deleter was running when the snapshot was
      taken, has committed since, and lies below the horizon. */
  lemma DeadButVisible(m: Mgr, s: Snapshot, self: TxID, v: Ver, horizon: TxID)
    requires ValidMgr(m) && SnapOk(s, m, self) && self in m.active && horizon <= self
    requires Visible(v, s, m.status, self)
    ensures DeadTo(v, m.status, horizon) <==>
            v.xmax in s.active && v.xmax < horizon && Outcome(m.status, v.xmax) == Committed
  {}

  // ---- runs in two stretches ----

  lemma {:induction false} DbRunAppend(a: DB.Db, evs: seq<Event>, more: seq<Event>)
    ensures DB.DbRun(a, evs + more) == DB.DbRun(DB.DbRun(a, evs), more)
  {
    hide DB.DbStep;
    if more == [] {
      assert evs + more == evs;
    } else {
      DbRunAppend(a, evs, more[..|more| - 1]);
      assert (evs + more)[..|evs + more| - 1] == evs + more[..|more| - 1];
    }
  }

  lemma {:induction false} RunAppend(e: State, evs: seq<Event>, more: seq<Event>)
    ensures Run(e, evs + more) == Run(Run(e, evs), more)
  {
    hide Step;
    if more == [] {
      assert evs + more == evs;
    } else {
      RunAppend(e, evs, more[..|more| - 1]);
      assert (evs + more)[..|evs + more| - 1] == evs + more[..|more| - 1];
    }
  }

  lemma DbRunOne(a: DB.Db, ev: Event)
    ensures DB.DbRun(a, [ev]) == DB.DbStep(a, ev)
  {
    hide DB.DbStep;
    assert [ev][..0] == [] && DB.DbRun(a, []) == a;
  }

  lemma RunOne(e: State, ev: Event)
    ensures Run(e, [ev]) == Step(e, ev)
  {
    hide Step;
    assert [ev][..0] == [] && Run(e, []) == e;
  }

  // ---- a horizon that is not safe ----

  ghost function FirstStatement(m: Mgr): TxState { TxState(Control(RepeatableRead, false, Running), SnapshotOf(m), []) }

  lemma TwoReaders(e: State)
    requires e.mgr == BOOTED && e.txs == map[]
    ensures var m1 := Issued(BOOTED); var m := Issued(m1);
            Run(e, [Begin, Open(2, RepeatableRead), Begin, Open(3, RepeatableRead)])
            == State(m, e.heaps, map[2 := FirstStatement(m1), 3 := FirstStatement(m)], e.log, e.open, e.dirty)
  {
    hide Run, Step, SnapshotOf;
    var m1 := Issued(BOOTED);
    var m := Issued(m1);
    var e1, e2 := e.(mgr := m1), e.(mgr := m1, txs := map[2 := FirstStatement(m1)]);
    var e3 := e2.(mgr := m);
    RunFour(e, Begin, Open(2, RepeatableRead), Begin, Open(3, RepeatableRead));
    BeginStep(e);
    OpenStep(e1, 2);
    assert map[][2 := FirstStatement(m1)] == map[2 := FirstStatement(m1)];
    BeginStep(e2);
    OpenStep(e3, 3);
  }

  lemma BeginStep(e: State)
    ensures Step(e, Begin) == e.(mgr := Issued(e.mgr))
  {}

  lemma OpenStep(e: State, t: TxID)
    requires Outcome(e.mgr.status, t) == InProgress && t !in e.txs
    ensures Step(e, Open(t, RepeatableRead)) == e.(txs := e.txs[t := FirstStatement(e.mgr)])
  {}

  lemma RunFour(e: State, w: Event, x: Event, y: Event, z: Event)
    ensures Run(e, [w, x, y, z]) == Step(Step(Step(Step(e, w), x), y), z)
    ensures Run(e, [w, x, y]) == Step(Step(Step(e, w), x), y)
  {
    hide Step, Run;
    assert [w, x, y, z] == [w] + [x] + [y] + [z] && [w, x, y] == [w] + [x] + [y];
    RunAppend(e, [w] + [x] + [y], [z]);
    RunAppend(e, [w] + [x], [y]);
    RunAppend(e, [w], [x]);
    RunOne(e, w);
    RunOne(Step(e, w), x);
    RunOne(Step(Step(e, w), x), y);
    RunOne(Step(Step(Step(e, w), x), y), z);
  }

  lemma DeleteCommitted(e: State, n: Name, k: RowID)
    requires e.mgr.status == map[BOOT := Committed, 2 := InProgress, 3 := InProgress] && e.mgr.active == {2, 3} && e.open
    requires e.txs.Keys == {2, 3} && e.txs[2] == FirstStatement(Issued(BOOTED))
    requires n in e.heaps && k in ById(e.heaps[n].versions)
    requires ById(e.heaps[n].versions)[k].xmin == BOOT && ById(e.heaps[n].versions)[k].xmax == INVALID_TX
    ensures var f := Run(e, [DeleteRow(2, n, k), Flush(2, Written), FinishCommit(2)]);
            && f.mgr == Mgr(e.mgr.next, map[BOOT := Committed, 2 := Committed, 3 := InProgress], {3})
            && 3 in f.txs && f.txs[3] == e.txs[3] && n in f.heaps
            && f.heaps[n].versions == Stamp(e.heaps[n].versions, k, 2)
  {
    hide Run, ById, Stamp, Replaced;
    RunFour(e, DeleteRow(2, n, k), Flush(2, Written), FinishCommit(2), Begin);
    assert Issued(BOOTED).active == {2};
    assert Deletable(e, 2, n, k);
    var e1 := Step(e, DeleteRow(2, n, k));
    var e2 := Step(e1, Flush(2, Written));
    assert e2.mgr == e.mgr && e2.txs[2].ctl.stage == Flushed && e2.txs[3] == e.txs[3];
    assert e.mgr.active - {2} == {3};
  }

  const UNSAFE_RUN := [Begin, Open(2, RepeatableRead), Begin, Open(3, RepeatableRead)]

  /** A run that reaches such a version: transactions 2 and 3 are both reading when 2 deletes a row and
      commits. What `Horizon` then returns lets vacuum take the row from 3, which still reads it. */
  lemma HorizonIsUnsafe(names: set<Name>, log: seq<seq<Record>>, n: Name, k: RowID)
    requires n in names && k in Recover(n, log)
    ensures var e := Run(Recovered(names, log), UNSAFE_RUN + [DeleteRow(2, n, k), Flush(2, Written), FinishCommit(2)]);
            && LiveTx(e.txs, 3) && n in e.heaps
            && var horizon, after := Least(e.mgr.active, e.mgr.next), e.heaps[n].versions;
               && k in RowMap(Scan(e, 3, n))
               && k !in RowMap(ScanVersions(VacuumVersions(after, e.mgr.status, horizon), e.txs[3].snap, e.mgr.status, 3))
  {
    hide Run, ById, LoadRows, Recover, Ascending, Stamp, ScanVersions, VacuumVersions, Step;
    var e0, rows := Recovered(names, log), Recover(n, log);
    LoadRowsShape(rows, SortedIds(rows.Keys));
    TwoReaders(e0);
    var e1 := Run(e0, UNSAFE_RUN);
    assert BOOTED == Mgr(2, map[BOOT := Committed], {});
    DeleteCommitted(e1, n, k);
    RunAppend(e0, UNSAFE_RUN, [DeleteRow(2, n, k), Flush(2, Written), FinishCommit(2)]);
    var e := Run(e1, [DeleteRow(2, n, k), Flush(2, Written), FinishCommit(2)]);
    ByIdStamp(e1.heaps[n].versions, k, 2);
    TakenFromReader(e.heaps[n].versions, e.mgr, e.txs[3].snap, k);
  }

  lemma TakenFromReader(vs: seq<Ver>, m: Mgr, s: Snapshot, k: RowID)
    requires Ascending(vs) && k in ById(vs) && ById(vs)[k].xmin == BOOT && ById(vs)[k].xmax == 2
    requires m.status == map[BOOT := Committed, 2 := Committed, 3 := InProgress] && m.active == {3} && m.next == 4
    requires s.active == {2, 3} && s.xmax == 4 && s.xmin <= 2
    ensures k in RowMap(ScanVersions(vs, s, m.status, 3))
    ensures k !in RowMap(ScanVersions(VacuumVersions(vs, m.status, Least(m.active, m.next)), s, m.status, 3))
  {
    hide ById, ScanVersions, VacuumVersions, Ascending;
    var horizon := Least(m.active, m.next);
    assert 3 in m.active;
    ScanSubseq(vs, s, m.status, 3);
    VacuumSubseq(vs, m.status, horizon);
    ScanSubseq(VacuumVersions(vs, m.status, horizon), s, m.status, 3);
  }

  // ---- isolation levels ----

  /** Above read committed a transaction reads through one snapshot for as long as it lives, whatever
      it or anyone does. */
  lemma {:induction false} OneSnapshot(e: State, evs: seq<Event>, t: TxID)
    requires t in e.txs && e.txs[t].ctl.iso != ReadCommitted && Crash !in evs
    ensures t in Run(e, evs).txs && Run(e, evs).txs[t].snap == e.txs[t].snap && Run(e, evs).txs[t].ctl.iso == e.txs[t].ctl.iso
  {
    hide Step;
    if evs != [] {
      OneSnapshot(e, evs[..|evs| - 1], t);
      KeepsSnapshot(Run(e, evs[..|evs| - 1]), evs[|evs| - 1], t);
    }
  }

  lemma KeepsSnapshot(e: State, ev: Event, t: TxID)
    requires t in e.txs && e.txs[t].ctl.iso != ReadCommitted && ev != Crash
    ensures t in Step(e, ev).txs && Step(e, ev).txs[t].snap == e.txs[t].snap && Step(e, ev).txs[t].ctl.iso == e.txs[t].ctl.iso
  {
    hide Covers, SafeHorizon, CheckpointRecords, ById, Reaches, SnapshotOf, VacuumVersions;
  }

  /** Under read committed every statement counts exactly the transactions committed by then. */
  lemma StatementsSeeCommitted(e: State, a: DB.Db, t: TxID, u: TxID)
    requires Related(e, a) && Statement(e, t) && e.txs[t].ctl.iso == ReadCommitted
    ensures var s := Step(e, NextStatement(t));
            Statement(s, t) && (CommittedIn(s.txs[t].snap, s.mgr.status, u) <==> u in e.mgr.status && e.mgr.status[u] == Committed)
  {
  }
}
