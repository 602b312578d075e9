/** What replacing the log keeps and what it loses, in terms of the snapshot it was taken from. */
module Checkpoints {
  import opened Values
  import opened Storage
  import opened Records
  import opened Engine
  import opened Refinement
  import opened RefinementSteps
  import opened Isolation
  import opened Durability
  import DB = SnapshotDb

  // ---- whom a snapshot sees ----

  /** The reference's set of transactions a live one sees is what its snapshot judges committed. */
  ghost predicate SeesRel(m: Mgr, txs: map<TxID, TxState>, atxs: map<TxID, DB.Tx>) {
    forall t, u :: LiveTx(txs, t) && t in atxs && u in atxs ==> (u in atxs[t].sees <==> CommittedIn(txs[t].snap, m.status, u))
  }

  /** A step begins or ends one transaction, or none. */
  lemma MgrStep(e: State, ev: Event)
    requires ev != Crash
    ensures var m := Step(e, ev).mgr;
            m == e.mgr || m == Issued(e.mgr) || exists u, o :: o != InProgress && m == Finished(e.mgr, u, o)
  {
    hide ById, Stamp, Reaches, Covers, CheckpointRecords, SnapshotOf, Issued, Finished, HeapInsert, VacuumVersions, SafeHorizon;
    match ev
    case Flush(t, io) => assert Statement(e, t) ==> Step(e, ev).mgr == e.mgr || Step(e, ev).mgr == Finished(e.mgr, t, Aborted);
    case FinishCommit(t) => assert Step(e, ev).mgr == e.mgr || Step(e, ev).mgr == Finished(e.mgr, t, Committed);
    case Rollback(t) => assert Step(e, ev).mgr == e.mgr || Step(e, ev).mgr == Finished(e.mgr, t, Aborted);
    case _ =>
  }

  /** A live transaction's snapshot changes only when it takes one. */
  lemma SnapshotStep(e: State, a: DB.Db, ev: Event, t: TxID)
    requires ControlRel(e, a) && ev != Crash && LiveTx(Step(e, ev).txs, t)
    ensures var f := Step(e, ev);
            if Snapshots(a, ev, t) then f.txs[t].snap == SnapshotOf(e.mgr) && f.mgr == e.mgr
            else LiveTx(e.txs, t) && f.txs[t].snap == e.txs[t].snap
  {
    hide ById, Stamp, Reaches, Covers, CheckpointRecords, SnapshotOf, Issued, Finished, HeapInsert, VacuumVersions, SafeHorizon,
         TxsRel, ValidMgr, Outcome;
    assert forall u :: u in a.begun <==> Outcome(e.mgr.status, u) == InProgress && u !in e.txs;
    WritersAgree(e, a, t);
    if t in e.txs { assert e.txs[t].ctl == a.txs[t].ctl; }
  }

  /** What an existing snapshot judges committed stays as it is. */
  lemma JudgesStay(e: State, ev: Event, s: Snapshot, t: TxID, id: TxID)
    requires ValidMgr(e.mgr) && SnapOk(s, e.mgr, t) && ev != Crash
    ensures CommittedIn(s, Step(e, ev).mgr.status, id) == CommittedIn(s, e.mgr.status, id)
  {
    hide Step, CommittedIn, SnapOk, ValidMgr, Issued, Finished;
    MgrStep(e, ev);
    CommittedInFixed(s, e.mgr, t, id);
  }

  /** Only a first statement makes a transaction known, and it is then in progress. */
  lemma KnownStep(a: DB.Db, ev: Event, u: TxID)
    requires ev != Crash
    ensures u in a.txs ==> u in DB.DbStep(a, ev).txs
    ensures u in DB.DbStep(a, ev).txs && u !in a.txs ==> u in a.begun
  {
    hide DB.TabStep, DB.Taken, DB.View, Covers, DB.Lands, DB.FlushOk, DB.CommittedOf;
  }

  lemma BegunIsRunning(e: State, a: DB.Db, u: TxID, s: Snapshot)
    requires ControlRel(e, a) && u in a.begun
    ensures !CommittedIn(s, e.mgr.status, u)
  {
    hide TxsRel, ValidMgr;
    assert Outcome(e.mgr.status, u) == InProgress;
  }

  lemma OutcomesAgree(e: State, a: DB.Db, u: TxID)
    requires ControlRel(e, a) && u in a.txs
    ensures u in e.txs && Outcome(e.mgr.status, u) == a.txs[u].outcome && e.txs[u].ctl == a.txs[u].ctl
  {
    hide SnapOk;
    assert TxRel(e.mgr, e.txs[u], u, a.txs[u]);
  }

  lemma SeesOne(e: State, a: DB.Db, ev: Event, t: TxID, u: TxID)
    requires Related(e, a) && DbOk(a) && SeesRel(e.mgr, e.txs, a.txs) && ev != Crash
    requires var f, b := Step(e, ev), DB.DbStep(a, ev); Related(f, b) && LiveTx(f.txs, t) && t in b.txs && u in b.txs
    ensures var f, b := Step(e, ev), DB.DbStep(a, ev); u in b.txs[t].sees <==> CommittedIn(f.txs[t].snap, f.mgr.status, u)
  {
    hide Step, DB.DbStep, HeapRel, LogRel, TabOk, Quiet, SnapsOk, CommittedIn, Snapshots, TxsRel, ValidMgr, TxRel, Acknowledged, TxOk;
    var f, b := Step(e, ev), DB.DbStep(a, ev);
    SnapshotStep(e, a, ev, t);
    KnownStep(a, ev, u);
    if u !in a.txs { BegunIsRunning(e, a, u, f.txs[t].snap); } else { OutcomesAgree(e, a, u); }
    OutcomesAgree(f, b, t);
    LiveIsInProgress(f, b, t);
    SameTxs(a, ev);
    SeesStays(a, ev, t);
    if Snapshots(a, ev, t) {
      FreshSnapshot(e.mgr, u);
    } else {
      assert SnapOk(e.txs[t].snap, e.mgr, t) by { LiveSnapOk(e, a, t); }
      JudgesStay(e, ev, e.txs[t].snap, t, u);
    }
  }

  lemma SameTxs(a: DB.Db, ev: Event)
    ensures DB.DbStep(a, ev).txs == DB.ControlStep(a, ev).txs
  {}

  lemma LiveIsInProgress(e: State, a: DB.Db, t: TxID)
    requires ControlRel(e, a) && LiveTx(e.txs, t) && t in a.txs
    ensures a.txs[t].outcome == InProgress
  {
    hide SnapOk;
    assert TxRel(e.mgr, e.txs[t], t, a.txs[t]);
  }

  lemma LiveSnapOk(e: State, a: DB.Db, t: TxID)
    requires ControlRel(e, a) && LiveTx(e.txs, t)
    ensures SnapOk(e.txs[t].snap, e.mgr, t)
  {
    hide SnapOk;
    assert TxRel(e.mgr, e.txs[t], t, a.txs[t]);
  }

  lemma SeesRelStep(e: State, a: DB.Db, ev: Event)
    requires Related(e, a) && DbOk(a) && SeesRel(e.mgr, e.txs, a.txs)
    ensures var f, b := Step(e, ev), DB.DbStep(a, ev); SeesRel(f.mgr, f.txs, b.txs)
  {
    hide Step, DB.DbStep, HeapRel, LogRel, DbOk, CommittedIn, ControlRel;
    var f, b := Step(e, ev), DB.DbStep(a, ev);
    StepRefines(e, a, ev);
    if ev == Crash {
      CrashForgets(a);
      SameTxs(a, ev);
    } else {
      forall t, u | LiveTx(f.txs, t) && t in b.txs && u in b.txs ensures u in b.txs[t].sees <==> CommittedIn(f.txs[t].snap, f.mgr.status, u) {
        SeesOne(e, a, ev, t, u);
      }
    }
  }

  lemma {:induction false} SeesRelRun(names: set<Name>, log: seq<seq<Record>>, evs: seq<Event>)
    ensures var e, a := Run(Recovered(names, log), evs), DB.DbRun(FreshDb(names, log), evs);
            Related(e, a) && DbOk(a) && SeesRel(e.mgr, e.txs, a.txs)
  {
    hide Step, DB.DbStep, Related, DbOk, SeesRel;
    StartRelated(names, log);
    StartOk(names, log);
    if evs == [] {
      assert SeesRel(Recovered(names, log).mgr, map[], map[]) by { NobodySees(Recovered(names, log).mgr); }
    } else {
      SeesRelRun(names, log, evs[..|evs| - 1]);
      var e, a := Run(Recovered(names, log), evs[..|evs| - 1]), DB.DbRun(FreshDb(names, log), evs[..|evs| - 1]);
      SeesRelStep(e, a, evs[|evs| - 1]);
      StepRefines(e, a, evs[|evs| - 1]);
      StepOk(a, evs[|evs| - 1]);
    }
  }

  lemma NobodySees(m: Mgr)
    ensures SeesRel(m, map[], map[])
  {}

  // ---- the replacement ----

  /** Before the replacement `u` was past its journal write, and the snapshot installed had not seen it commit. */
  ghost predicate LeftOut(e: State, t: TxID, u: TxID)
    requires t in e.txs
  {
    u in e.txs && e.txs[u].ctl.stage != Running && !CommittedIn(e.txs[t].snap, e.mgr.status, u)
  }

  /** A replacement leaves in the log exactly the transactions its snapshot saw commit, and drops the
      others that had been there. */
  lemma ReplacementKeeps(names: set<Name>, log: seq<seq<Record>>, evs: seq<Event>, t: TxID, order: seq<Name>, u: TxID)
    requires var e := Run(Recovered(names, log), evs); CanReplace(e, t, order) && e.dirty && u in e.txs
    ensures var e, a := Run(Recovered(names, log), evs), DB.DbRun(FreshDb(names, log), evs);
            var a' := DB.DbRun(FreshDb(names, log), evs + [ReplaceLog(t, order)]);
            && u in a.txs && u in a'.txs && a'.txs[u].outcome == a.txs[u].outcome
            && (a'.txs[u].landed <==> CommittedIn(e.txs[t].snap, e.mgr.status, u))
            && (a'.txs[u].dropped <==> (a.txs[u].landed || a.txs[u].dropped) && !CommittedIn(e.txs[t].snap, e.mgr.status, u))
  {
    hide Run, DB.DbRun, Recovered, FreshDb, HeapRel, LogRel, DbOk, CommittedIn, DB.ReplacedTab, TxsRel, ValidMgr;
    SeesRelRun(names, log, evs);
    var e, a := Run(Recovered(names, log), evs), DB.DbRun(FreshDb(names, log), evs);
    WritersAgree(e, a, t);
    WritersAgree(e, a, u);
    DbRunAppend(FreshDb(names, log), evs, [ReplaceLog(t, order)]);
    DbRunOne(a, ReplaceLog(t, order));
  }

  /** Neither a crash nor another replacement. */
  predicate Plain(evs: seq<Event>) { forall i :: 0 <= i < |evs| ==> evs[i] != Crash && !evs[i].ReplaceLog? }

  lemma DroppedStep(a: DB.Db, ev: Event, u: TxID)
    requires ev != Crash && !ev.ReplaceLog?
    ensures var b := DB.DbStep(a, ev);
            (u in b.txs && b.txs[u].dropped) <==> (u in a.txs && a.txs[u].dropped)
  {
    hide DB.TabStep, DB.Taken, DB.View, Covers, DB.Lands, DB.FlushOk, DB.CommittedOf;
  }

  lemma {:induction false} DroppedStays(a: DB.Db, evs: seq<Event>, u: TxID)
    requires Plain(evs)
    ensures var b := DB.DbRun(a, evs);
            (u in b.txs && b.txs[u].dropped) <==> (u in a.txs && a.txs[u].dropped)
  {
    hide DB.DbStep;
    if evs != [] {
      DroppedStays(a, evs[..|evs| - 1], u);
      DroppedStep(DB.DbRun(a, evs[..|evs| - 1]), evs[|evs| - 1], u);
    }
  }

  /** A transaction once finished stays finished. */
  lemma {:induction false} AbortedStays(a: DB.Db, evs: seq<Event>, u: TxID)
    requires Plain(evs) && DbOk(a) && u in a.txs && a.txs[u].outcome == Aborted
    ensures var b := DB.DbRun(a, evs); u in b.txs && b.txs[u].outcome == Aborted
  {
    hide DB.DbStep, TabOk, Quiet, SnapsOk, SeesCommitted;
    if evs != [] {
      var b := DB.DbRun(a, evs[..|evs| - 1]);
      AbortedStays(a, evs[..|evs| - 1], u);
      RunOk(a, evs[..|evs| - 1]);
      OutcomeStays(b, evs[|evs| - 1], u);
      StepOk(b, evs[|evs| - 1]);
      SameTxs(b, evs[|evs| - 1]);
    }
  }

  lemma LeftOutDropped(names: set<Name>, log: seq<seq<Record>>, evs: seq<Event>, t: TxID, order: seq<Name>, more: seq<Event>, u: TxID)
    requires Plain(more)
    requires var e := Run(Recovered(names, log), evs); CanReplace(e, t, order) && e.dirty
    requires var b := DB.DbRun(FreshDb(names, log), evs + [ReplaceLog(t, order)] + more); u in b.txs && b.txs[u].outcome == Committed
    ensures DB.DbRun(FreshDb(names, log), evs + [ReplaceLog(t, order)] + more).txs[u].dropped <==>
            LeftOut(Run(Recovered(names, log), evs), t, u)
  {
    hide Run, DB.DbRun, Recovered, FreshDb, HeapRel, LogRel, CommittedIn, TabOk, Quiet, SnapsOk, SeesCommitted, TxsRel, ValidMgr, Plain;
    var e, a := Run(Recovered(names, log), evs), DB.DbRun(FreshDb(names, log), evs);
    var mid := DB.DbRun(FreshDb(names, log), evs + [ReplaceLog(t, order)]);
    SeesRelRun(names, log, evs);
    SeesRelRun(names, log, evs + [ReplaceLog(t, order)]);
    DbRunAppend(FreshDb(names, log), evs + [ReplaceLog(t, order)], more);
    DroppedStays(mid, more, u);
    WritersAgree(e, a, u);
    if u in e.txs {
      ReplacementKeeps(names, log, evs, t, order, u);
      if mid.txs[u].outcome == Aborted { AbortedStays(mid, more, u); }
      OutcomesAgree(e, a, u);
      assert TxOk(a.txs[u]) && Acknowledged(a, a.txs[u]);
    } else {
      StillUnknown(names, log, evs, t, order, u);
    }
  }

  lemma StillUnknown(names: set<Name>, log: seq<seq<Record>>, evs: seq<Event>, t: TxID, order: seq<Name>, u: TxID)
    requires u !in DB.DbRun(FreshDb(names, log), evs).txs
    ensures u !in DB.DbRun(FreshDb(names, log), evs + [ReplaceLog(t, order)]).txs
  {
    hide DB.DbRun, FreshDb, DB.TabStep;
    DbRunAppend(FreshDb(names, log), evs, [ReplaceLog(t, order)]);
    DbRunOne(DB.DbRun(FreshDb(names, log), evs), ReplaceLog(t, order));
  }

  /** The transactions that have committed by now. */
  function Commits(f: State): set<TxID> { set u | u in f.txs && Outcome(f.mgr.status, u) == Committed }

  /** Those among them that a replacement by `t` in state `e` left out. */
  ghost function CommitsLeftOut(e: State, t: TxID, f: State): set<TxID>
    requires t in e.txs
  {
    set u | u in Commits(f) && LeftOut(e, t, u)
  }

  /** The exact price of a checkpoint. After the last replacement, and with the log intact and no
      commit half done, a crash restarts a table with the rows that were committed if and only if every
      commit that was past its journal write before the replacement, and that the checkpoint's snapshot
      had not seen, has been undone: its inserts deleted by commits, and its deletes only of rows that
      such commits inserted. */
  lemma ReplacementLosesIff(names: set<Name>, log: seq<seq<Record>>, evs: seq<Event>, t: TxID, order: seq<Name>, more: seq<Event>, n: Name)
    requires n in names && Plain(more)
    requires var e := Run(Recovered(names, log), evs); CanReplace(e, t, order) && e.dirty
    requires AtRest(DB.DbRun(FreshDb(names, log), evs + [ReplaceLog(t, order)] + more))
    ensures var e := Run(Recovered(names, log), evs);
            var all := evs + [ReplaceLog(t, order)] + more;
            var f, b := Run(Recovered(names, log), all), DB.DbRun(FreshDb(names, log), all);
            && n in b.tabs
            && (Recover(n, f.log) == b.tabs[n].committed <==>
                forall u :: u in CommitsLeftOut(e, t, f) ==> Undone(b.tabs[n], Commits(f), CommitsLeftOut(e, t, f), u))
  {
    hide Run, DB.DbRun, Recovered, FreshDb, HeapRel, LogRel, DbOk, CommittedIn, Recover, Undone, AtRest, CanReplace, ControlRel, Plain;
    var e, all := Run(Recovered(names, log), evs), evs + [ReplaceLog(t, order)] + more;
    var f, b := Run(Recovered(names, log), all), DB.DbRun(FreshDb(names, log), all);
    CrashLosesNothingIff(names, log, all, n);
    SeesRelRun(names, log, all);
    assert t in e.txs by { CanReplaceKnown(e, t, order); }
    SameKnown(f, b);
    forall u | u in b.txs ensures Outcome(f.mgr.status, u) == b.txs[u].outcome
                                  && (b.txs[u].outcome == Committed ==> (b.txs[u].dropped <==> LeftOut(e, t, u))) {
      OutcomesAgree(f, b, u);
      if b.txs[u].outcome == Committed { LeftOutDropped(names, log, evs, t, order, more, u); }
    }
    assert Commits(f) == DB.CommittedOf(b.txs) && CommitsLeftOut(e, t, f) == DroppedOf(b.txs);
  }

  lemma SameKnown(e: State, a: DB.Db)
    requires ControlRel(e, a)
    ensures e.txs.Keys == a.txs.Keys
  {}

  lemma CanReplaceKnown(e: State, t: TxID, order: seq<Name>)
    requires CanReplace(e, t, order)
    ensures t in e.txs
  {}

  // ---- the two ways a checkpoint loses a commit ----

  lemma WriteStep(a: DB.Db, u: TxID, n: Name)
    requires DB.CanWrite(a, u) && a.txs[u].wrote && a.open && n in a.tabs
    ensures var b := DB.DbStep(a, Flush(u, Written));
            && b.tabs.Keys == a.tabs.Keys && u in b.txs && b.txs[u].ctl.stage == Flushed && b.open && b.dirty
            && (forall t :: t in a.txs && t != u ==> t in b.txs && b.txs[t] == a.txs[t])
            && b.tabs[n] == DB.LandTab(a.tabs[n], u)
  {
    hide DB.LandTab;
  }

  lemma FinishStep(a: DB.Db, u: TxID, n: Name)
    requires u in a.txs && a.txs[u].ctl.stage == Flushed && n in a.tabs
    ensures var b := DB.DbStep(a, FinishCommit(u));
            && b.tabs.Keys == a.tabs.Keys && u in b.txs && b.txs[u].outcome == Committed && b.open == a.open && b.dirty == a.dirty
            && (forall t :: t in a.txs && t != u ==> t in b.txs && b.txs[t] == a.txs[t])
            && b.tabs[n] == DB.CommitTab(a.tabs[n], u)
  {
    hide DB.CommitTab;
  }

  lemma CommitSteps(a: DB.Db, u: TxID, n: Name)
    requires DB.CanWrite(a, u) && a.txs[u].wrote && a.open && n in a.tabs
    ensures var b := DB.DbStep(DB.DbStep(a, Flush(u, Written)), FinishCommit(u));
            && b.tabs.Keys == a.tabs.Keys && u in b.txs && b.txs[u].outcome == Committed && b.open && b.dirty
            && (forall t :: t in a.txs && t != u ==> t in b.txs && b.txs[t] == a.txs[t])
            && b.tabs[n].snap == a.tabs[n].snap && b.tabs[n].ins == a.tabs[n].ins && b.tabs[n].del == a.tabs[n].del
            && b.tabs[n].committed == DB.Changed(a.tabs[n].committed, DB.Ins(a.tabs[n], u), DB.Del(a.tabs[n], u))
  {
    hide DB.Changed, DB.DbStep;
    WriteStep(a, u, n);
    FinishStep(DB.DbStep(a, Flush(u, Written)), u, n);
  }

  lemma ReplaceStep(a: DB.Db, t: TxID, order: seq<Name>, n: Name)
    requires DB.CanReplace(a, t, order) && a.dirty && n in a.tabs
    ensures var b := DB.DbStep(a, ReplaceLog(t, order));
            && n in b.tabs && b.tabs[n].durable == DB.View(a.tabs[n], t) && b.tabs[n].committed == a.tabs[n].committed
            && b.tabs[n].ins == a.tabs[n].ins && b.tabs[n].del == a.tabs[n].del
            && b.open == a.open && forall u :: u in a.txs ==> u in b.txs && b.txs[u].outcome == a.txs[u].outcome && b.txs[u].ctl == a.txs[u].ctl
  {
    hide Covers, DB.View;
  }

  lemma LosesSteps(a: DB.Db, t: TxID, order: seq<Name>, u: TxID, n: Name)
    requires DB.CanReplace(a, t, order) && DB.CanWrite(a, u) && a.txs[u].wrote && a.open && n in a.tabs
    ensures var b := DB.DbStep(DB.DbStep(DB.DbStep(a, Flush(u, Written)), FinishCommit(u)), ReplaceLog(t, order));
            && n in b.tabs && u in b.txs && b.txs[u].outcome == Committed && b.open
            && b.tabs[n].durable == DB.View(a.tabs[n], t)
            && b.tabs[n].committed == DB.Changed(a.tabs[n].committed, DB.Ins(a.tabs[n], u), DB.Del(a.tabs[n], u))
  {
    hide Covers, DB.Changed, DB.DbStep;
    CommitSteps(a, u, n);
    var c := DB.DbStep(DB.DbStep(a, Flush(u, Written)), FinishCommit(u));
    assert DB.View(c.tabs[n], t) == DB.View(a.tabs[n], t);
    ReplaceStep(c, t, order, n);
  }

  lemma RaceSteps(a: DB.Db, t: TxID, order: seq<Name>, u: TxID, n: Name)
    requires DB.CanReplace(a, t, order) && a.dirty && u in a.txs && a.txs[u].ctl.stage == Flushed && n in a.tabs
    ensures var b := DB.DbStep(DB.DbStep(a, ReplaceLog(t, order)), FinishCommit(u));
            && n in b.tabs && u in b.txs && b.txs[u].outcome == Committed && b.open == a.open
            && b.tabs[n].durable == DB.View(a.tabs[n], t)
            && b.tabs[n].committed == DB.Changed(a.tabs[n].committed, DB.Ins(a.tabs[n], u), DB.Del(a.tabs[n], u))
  {
    hide Covers, DB.Changed, DB.DbStep;
    ReplaceStep(a, t, order, n);
    FinishStep(DB.DbStep(a, ReplaceLog(t, order)), u, n);
  }

  /** A transaction that writes, flushes and commits after the checkpoint's snapshot and before its
      replacement is acknowledged and gone: the log recovers to what the snapshot saw. */
  lemma CheckpointLosesCommit(names: set<Name>, log: seq<seq<Record>>, evs: seq<Event>, t: TxID, order: seq<Name>, u: TxID, n: Name)
    requires n in names
    requires var e := Run(Recovered(names, log), evs);
             CanReplace(e, t, order) && Statement(e, u) && e.txs[u].pending != [] && e.open
    ensures var e, a := Run(Recovered(names, log), evs), DB.DbRun(FreshDb(names, log), evs);
            var all := evs + [Flush(u, Written), FinishCommit(u), ReplaceLog(t, order)];
            var f, b := Run(Recovered(names, log), all), DB.DbRun(FreshDb(names, log), all);
            && n in e.heaps && n in a.tabs && n in b.tabs
            && Outcome(f.mgr.status, u) == Committed && f.open
            && Recover(n, f.log) == Reads(e, t, n)
            && b.tabs[n].committed == DB.Changed(a.tabs[n].committed, DB.Ins(a.tabs[n], u), DB.Del(a.tabs[n], u))
  {
    hide Run, DB.DbRun, Recovered, FreshDb, HeapRel, LogRel, DbOk, Recover, DB.Changed, DB.View, TxsRel, ValidMgr, RowMap, Scan, DB.DbStep;
    var a0, more := FreshDb(names, log), [Flush(u, Written), FinishCommit(u), ReplaceLog(t, order)];
    var e, a := Run(Recovered(names, log), evs), DB.DbRun(a0, evs);
    RecoveryIsExact(names, log, evs, n);
    RecoveryIsExact(names, log, evs + more, n);
    SeesRelRun(names, log, evs);
    SeesRelRun(names, log, evs + more);
    WritersAgree(e, a, t);
    WritersAgree(e, a, u);
    DbRunAppend(a0, evs, more);
    DbRunThree(a, Flush(u, Written), FinishCommit(u), ReplaceLog(t, order));
    LosesSteps(a, t, order, u, n);
    ScanIsView(e, a, t, n);
    OutcomesAgree(Run(Recovered(names, log), evs + more), DB.DbRun(a0, evs + more), u);
  }

  lemma DbRunThree(a: DB.Db, x: Event, y: Event, z: Event)
    ensures DB.DbRun(a, [x, y, z]) == DB.DbStep(DB.DbStep(DB.DbStep(a, x), y), z)
    ensures DB.DbRun(a, [x, y]) == DB.DbStep(DB.DbStep(a, x), y)
  {
    hide DB.DbStep;
    DbRunOne(a, x);
    assert [x, y, z][..2] == [x, y] && [x, y][..1] == [x];
  }

  /** The same loss when the replacement falls between the commit's journal write and its status change. */
  lemma CheckpointDropsFlushed(names: set<Name>, log: seq<seq<Record>>, evs: seq<Event>, t: TxID, order: seq<Name>, u: TxID, n: Name)
    requires n in names
    requires var e := Run(Recovered(names, log), evs);
             CanReplace(e, t, order) && e.dirty && u in e.txs && e.txs[u].ctl.stage == Flushed
    ensures var e, a := Run(Recovered(names, log), evs), DB.DbRun(FreshDb(names, log), evs);
            var all := evs + [ReplaceLog(t, order), FinishCommit(u)];
            var f, b := Run(Recovered(names, log), all), DB.DbRun(FreshDb(names, log), all);
            && n in e.heaps && n in a.tabs && n in b.tabs
            && Outcome(f.mgr.status, u) == Committed && f.open == e.open
            && Recover(n, f.log) == Reads(e, t, n)
            && b.tabs[n].committed == DB.Changed(a.tabs[n].committed, DB.Ins(a.tabs[n], u), DB.Del(a.tabs[n], u))
  {
    hide Run, DB.DbRun, Recovered, FreshDb, HeapRel, LogRel, DbOk, Recover, DB.Changed, DB.View, TxsRel, ValidMgr, RowMap, Scan, DB.DbStep;
    var a0, more := FreshDb(names, log), [ReplaceLog(t, order), FinishCommit(u)];
    var e, a := Run(Recovered(names, log), evs), DB.DbRun(a0, evs);
    RecoveryIsExact(names, log, evs, n);
    RecoveryIsExact(names, log, evs + more, n);
    SeesRelRun(names, log, evs);
    SeesRelRun(names, log, evs + more);
    WritersAgree(e, a, t);
    WritersAgree(e, a, u);
    DbRunAppend(a0, evs, more);
    DbRunThree(a, ReplaceLog(t, order), FinishCommit(u), Begin);
    RaceSteps(a, t, order, u, n);
    ScanIsView(e, a, t, n);
    OutcomesAgree(Run(Recovered(names, log), evs + more), DB.DbRun(a0, evs + more), u);
  }

  // ---- tables scanned one at a time ----

  /** Everyone acts but `t`, and nothing crashes. */
  predicate Others(evs: seq<Event>, t: TxID) { forall i :: 0 <= i < |evs| ==> Actor(evs[i]) != Some(t) && evs[i] != Crash }

  lemma LiveStep(e: State, ev: Event, t: TxID)
    requires LiveTx(e.txs, t) && Actor(ev) != Some(t) && ev != Crash
    ensures LiveTx(Step(e, ev).txs, t) && Step(e, ev).txs[t] == e.txs[t]
  {
    hide ById, Stamp, Reaches, Covers, CheckpointRecords, SnapshotOf, Issued, Finished, HeapInsert, VacuumVersions, SafeHorizon;
  }

  lemma {:induction false} ReadsStay(e: State, a: DB.Db, evs: seq<Event>, t: TxID, n: Name)
    requires Related(e, a) && LiveTx(e.txs, t) && n in e.heaps && Others(evs, t)
    ensures var f := Run(e, evs); LiveTx(f.txs, t) && n in f.heaps && f.txs[t] == e.txs[t] && Reads(f, t, n) == Reads(e, t, n)
  {
    hide Step, DB.DbStep, HeapRel, LogRel, TxsRel, RowMap, Scan, Actor, ValidMgr;
    if evs != [] {
      var before, ev := evs[..|evs| - 1], evs[|evs| - 1];
      ReadsStay(e, a, before, t, n);
      RunRefines(e, a, before);
      LiveStep(Run(e, before), ev, t);
      ScanIsStable(Run(e, before), DB.DbRun(a, before), ev, t, n);
    }
  }

  lemma {:induction false} SameRowsSameRecords(n: Name, vs: seq<Ver>, ws: seq<Ver>)
    requires Ascending(vs) && Ascending(ws) && RowMap(vs) == RowMap(ws)
    ensures InsertsOf(n, vs) == InsertsOf(n, ws)
  {
    if vs == [] || ws == [] {
      NoRowsNoVersions(vs);
      NoRowsNoVersions(ws);
    } else {
      var v, w := vs[|vs| - 1], ws[|ws| - 1];
      LastIsGreatest(vs);
      LastIsGreatest(ws);
      assert v.id in RowMap(ws) && w.id in RowMap(vs);
      assert v.id == w.id && v.vals == RowMap(vs)[v.id] == RowMap(ws)[w.id] == w.vals;
      SameRowsSameRecords(n, vs[..|vs| - 1], ws[..|ws| - 1]);
      assert InsertsOf(n, vs) == InsertsOf(n, vs[..|vs| - 1]) + [Record.Insert(n, v.id, v.vals)];
      assert InsertsOf(n, ws) == InsertsOf(n, ws[..|ws| - 1]) + [Record.Insert(n, w.id, w.vals)];
    }
  }

  lemma NoRowsNoVersions(vs: seq<Ver>)
    requires Ascending(vs)
    ensures RowMap(vs) == map[] <==> vs == []
  {
    if vs != [] { LastIsGreatest(vs); }
  }

  lemma LastIsGreatest(vs: seq<Ver>)
    requires Ascending(vs) && vs != []
    ensures var v := vs[|vs| - 1];
            && v.id in RowMap(vs) && RowMap(vs)[v.id] == v.vals && (forall k :: k in RowMap(vs) ==> k <= v.id)
            && Ascending(vs[..|vs| - 1]) && RowMap(vs[..|vs| - 1]) == RowMap(vs) - {v.id}
  {
    hide Ascending, ById;
    var w, v := vs[..|vs| - 1], vs[|vs| - 1];
    assert vs == w + [v];
    ByIdSnoc(w, v);
    BelowLast(w, v);
  }

  /** A checkpoint may scan its tables one after the other while others work: the records a table gives
      when it is scanned are those it would give at the replacement. */
  lemma ScansReadOff(e: State, a: DB.Db, evs: seq<Event>, t: TxID, n: Name)
    requires Related(e, a) && LiveTx(e.txs, t) && n in e.heaps && Others(evs, t)
    ensures var f := Run(e, evs);
            t in f.txs && TableRecords(f, f.txs[t].snap, t, n) == TableRecords(e, e.txs[t].snap, t, n)
  {
    hide Step, DB.DbStep, HeapRel, LogRel, TxsRel, RowMap, ScanVersions, Others, ValidMgr, Run, DB.DbRun;
    var f := Run(e, evs);
    ReadsStay(e, a, evs, t, n);
    RunRefines(e, a, evs);
    ScanIsView(e, a, t, n);
    ScanIsView(f, DB.DbRun(a, evs), t, n);
    SameRowsSameRecords(n, Scan(f, t, n), Scan(e, t, n));
    assert TableRecords(e, e.txs[t].snap, t, n) == InsertsOf(n, Scan(e, t, n));
    assert TableRecords(f, f.txs[t].snap, t, n) == InsertsOf(n, Scan(f, t, n));
  }
}
