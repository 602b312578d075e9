/** Who deleted a row: of the transactions that delete the same version, at most one commits. */
module Deleters {
  import opened Values
  import opened Storage
  import opened Records
  import opened Engine
  import opened Refinement
  import opened RefinementSteps
  import opened Isolation
  import opened Durability
  import opened Checkpoints
  import DB = SnapshotDb

  /** The engine lets the deletion through: it stamps the version and buffers a record. */
  ghost predicate Accepted(e: State, t: TxID, n: Name, k: RowID) { Step(e, DeleteRow(t, n, k)) != e }

  lemma AcceptedIff(e: State, t: TxID, n: Name, k: RowID)
    ensures Accepted(e, t, n, k) <==> Deletable(e, t, n, k)
  {
    hide Reaches, DeleteConflicts, Stamp, ById;
    if Deletable(e, t, n, k) {
      assert |Step(e, DeleteRow(t, n, k)).txs[t].pending| == |e.txs[t].pending| + 1;
    }
  }

  predicate NoCrash(evs: seq<Event>) { forall i :: 0 <= i < |evs| ==> evs[i] != Crash }

  lemma DelsStep(a: DB.Db, ev: Event, n: Name, u: TxID)
    requires ev != Crash && n in a.tabs && u in a.txs
    ensures DB.Del(a.tabs[n], u) <= DB.Del(DB.TabStep(a, ev, n), u)
  {
    hide DB.CanDelete, DB.CanWrite, Covers, DB.Lands, DB.FlushOk, DB.Changed, DB.CrashTab, DB.View, DB.With;
  }

  lemma {:induction false} DelsStay(a: DB.Db, evs: seq<Event>, n: Name, u: TxID, k: RowID)
    requires NoCrash(evs) && n in a.tabs && u in a.txs && k in DB.Del(a.tabs[n], u)
    ensures var b := DB.DbRun(a, evs); n in b.tabs && u in b.txs && k in DB.Del(b.tabs[n], u)
  {
    hide DB.TabStep, DB.ControlStep, DB.Del;
    if evs != [] {
      var b, ev := DB.DbRun(a, evs[..|evs| - 1]), evs[|evs| - 1];
      DelsStay(a, evs[..|evs| - 1], n, u, k);
      KnownStep(b, ev, u);
      DelsStep(b, ev, n, u);
    }
  }

  lemma DeletedTab(a: DB.Db, t: TxID, n: Name, k: RowID)
    requires DB.CanDelete(a, t, n, k)
    ensures var b := DB.DbStep(a, DeleteRow(t, n, k)); n in b.tabs && t in b.txs && k in DB.Del(b.tabs[n], t)
  {
    hide DB.Taken, DB.View;
  }

  /** First deleter wins: once the engine has let `t` delete a version, it lets another transaction
      delete it only after `t` has aborted. */
  lemma FirstDeleterWins(names: set<Name>, log: seq<seq<Record>>, evs: seq<Event>, mid: seq<Event>, n: Name, k: RowID, t: TxID, u: TxID)
    requires t != u && NoCrash(mid)
    requires Accepted(Run(Recovered(names, log), evs), t, n, k)
    requires Accepted(Run(Recovered(names, log), evs + [DeleteRow(t, n, k)] + mid), u, n, k)
    ensures Outcome(Run(Recovered(names, log), evs + [DeleteRow(t, n, k)] + mid).mgr.status, t) == Aborted
  {
    hide Run, DB.DbRun, Recovered, FreshDb, HeapRel, LogRel, DbOk, ControlRel, Deletable, Accepted, DB.DbStep, DB.Del, DB.View, NoCrash;
    var a0, first := FreshDb(names, log), [DeleteRow(t, n, k)];
    var e, a := Run(Recovered(names, log), evs), DB.DbRun(a0, evs);
    var f, b := Run(Recovered(names, log), evs + first + mid), DB.DbRun(a0, evs + first + mid);
    SeesRelRun(names, log, evs);
    SeesRelRun(names, log, evs + first + mid);
    AcceptedIff(e, t, n, k);
    AcceptedIff(f, u, n, k);
    DeletableTable(e, t, n, k);
    DeletableTable(f, u, n, k);
    assert TableRel(e, a, n) && TableRel(f, b, n);
    DeleteAgrees(e, a, t, n, k);
    DeleteAgrees(f, b, u, n, k);
    DeletedTab(a, t, n, k);
    DbRunAppend(a0, evs, first);
    DbRunOne(a, DeleteRow(t, n, k));
    DbRunAppend(a0, evs + first, mid);
    DelsStay(DB.DbStep(a, DeleteRow(t, n, k)), mid, n, t, k);
    OutcomesAgree(f, b, t);
  }

  lemma DeletableTable(e: State, t: TxID, n: Name, k: RowID)
    requires Deletable(e, t, n, k)
    ensures n in e.heaps
  {}

  // ---- frames ----

  /** Whatever a transaction's buffer says it deleted, it deleted. */
  ghost predicate BufferRel(txs: map<TxID, TxState>, tabs: map<Name, DB.Tab>) {
    forall t, n, k :: t in txs && Record.Delete(n, k) in txs[t].pending ==> n in tabs && k in DB.Del(tabs[n], t)
  }

  /** One step's effect on one buffer. */
  lemma BufferStep(e: State, ev: Event, t: TxID, r: Record)
    requires ev != Crash && t in Step(e, ev).txs && r in Step(e, ev).txs[t].pending
    ensures || (t in e.txs && r in e.txs[t].pending)
            || r.Insert?
            || (r.Delete? && ev == DeleteRow(t, r.table, r.row) && Deletable(e, t, r.table, r.row))
  {
    hide ById, Stamp, Reaches, Covers, CheckpointRecords, SnapshotOf, Issued, Finished, HeapInsert, VacuumVersions, SafeHorizon, DeleteConflicts;
  }

  lemma BufferRelStep(e: State, a: DB.Db, ev: Event)
    requires Related(e, a) && BufferRel(e.txs, a.tabs)
    ensures BufferRel(Step(e, ev).txs, DB.DbStep(a, ev).tabs)
  {
    hide Step, HeapRel, LogRel, DB.TabStep, DB.ControlStep, DB.Del, ControlRel, Deletable;
    var f, b := Step(e, ev), DB.DbStep(a, ev);
    if ev == Crash {
      assert f.txs == map[] by { CrashEmpties(e); }
    } else {
      forall t, n, k | t in f.txs && Record.Delete(n, k) in f.txs[t].pending ensures n in b.tabs && k in DB.Del(b.tabs[n], t) {
        BufferStep(e, ev, t, Record.Delete(n, k));
        if t in e.txs && Record.Delete(n, k) in e.txs[t].pending {
          WritersAgree(e, a, t);
          DelsStep(a, ev, n, t);
        } else {
          DeletableTable(e, t, n, k);
          assert TableRel(e, a, n);
          DeleteAgrees(e, a, t, n, k);
          DeletedTab(a, t, n, k);
        }
      }
    }
  }

  lemma CrashEmpties(e: State)
    ensures Step(e, Crash).txs == map[]
  {}

  lemma {:induction false} BufferRelRun(names: set<Name>, log: seq<seq<Record>>, evs: seq<Event>)
    ensures BufferRel(Run(Recovered(names, log), evs).txs, DB.DbRun(FreshDb(names, log), evs).tabs)
  {
    hide Step, DB.DbStep, Related, DbOk, SeesRel;
    if evs != [] {
      BufferRelRun(names, log, evs[..|evs| - 1]);
      SeesRelRun(names, log, evs[..|evs| - 1]);
      BufferRelStep(Run(Recovered(names, log), evs[..|evs| - 1]), DB.DbRun(FreshDb(names, log), evs[..|evs| - 1]), evs[|evs| - 1]);
    }
  }

  /** Event `i` of a run flushes a buffer of `t` that says it deleted the version. */
  ghost predicate Framed(names: set<Name>, log: seq<seq<Record>>, evs: seq<Event>, i: nat, t: TxID, n: Name, k: RowID) {
    && i < |evs| && evs[i].Flush? && evs[i].t == t
    && var e := Run(Recovered(names, log), evs[..i]);
       Statement(e, t) && Record.Delete(n, k) in e.txs[t].pending
  }

  lemma FramedDeletes(names: set<Name>, log: seq<seq<Record>>, evs: seq<Event>, i: nat, t: TxID, n: Name, k: RowID)
    requires Framed(names, log, evs, i, t, n, k) && NoCrash(evs[i..])
    ensures var b := DB.DbRun(FreshDb(names, log), evs); n in b.tabs && t in b.txs && k in DB.Del(b.tabs[n], t)
  {
    hide Run, DB.DbRun, Recovered, FreshDb, HeapRel, LogRel, DbOk, ControlRel, DB.Del, NoCrash;
    var e, a := Run(Recovered(names, log), evs[..i]), DB.DbRun(FreshDb(names, log), evs[..i]);
    SeesRelRun(names, log, evs[..i]);
    BufferRelRun(names, log, evs[..i]);
    WritersAgree(e, a, t);
    assert evs == evs[..i] + evs[i..];
    DbRunAppend(FreshDb(names, log), evs[..i], evs[i..]);
    DelsStay(a, evs[i..], n, t, k);
  }

  /** Of the transactions whose frames delete the same version, between two starts, at most one has committed. */
  lemma OneCommittedDeleter(names: set<Name>, log: seq<seq<Record>>, evs: seq<Event>, i: nat, j: nat, t: TxID, u: TxID, n: Name, k: RowID)
    requires Framed(names, log, evs, i, t, n, k) && Framed(names, log, evs, j, u, n, k)
    requires NoCrash(evs[i..]) && NoCrash(evs[j..])
    requires var e := Run(Recovered(names, log), evs); Outcome(e.mgr.status, t) == Committed && Outcome(e.mgr.status, u) == Committed
    ensures t == u
  {
    hide Run, DB.DbRun, Recovered, FreshDb, RowsRel, LogRel, DbOk, ControlRel, DB.Del, NoCrash, Framed;
    var e, b := Run(Recovered(names, log), evs), DB.DbRun(FreshDb(names, log), evs);
    FramedDeletes(names, log, evs, i, t, n, k);
    FramedDeletes(names, log, evs, j, u, n, k);
    SeesRelRun(names, log, evs);
    OutcomesAgree(e, b, t);
    OutcomesAgree(e, b, u);
    assert n in e.heaps by { SameNames(e, b); }
    assert TableRel(e, b, n);
    OneDeleterHolds(e.mgr, e.txs, e.heaps[n], b.txs, b.tabs[n]);
    assert Deletes(b.txs, b.tabs[n], t, k) && Deletes(b.txs, b.tabs[n], u, k);
  }

  lemma SameNames(e: State, a: DB.Db)
    requires ControlRel(e, a)
    ensures e.heaps.Keys == a.tabs.Keys
  {}
}
