/** The reference: a snapshot-isolation database described by row maps, with no versions and no log. */
module SnapshotDb {
  import opened Values
  import opened Storage
  import opened Records
  import opened Engine

  /** One table. A transaction reads the rows committed when its snapshot was taken, plus what it
      inserted, minus what it deleted. `base` is the table as the last start recovered it. */
  datatype Tab = Tab(base: Rows, committed: Rows, durable: Rows, nextRow: RowID,
                     snap: map<TxID, Rows>, ins: map<TxID, Rows>, del: map<TxID, set<RowID>>)

  /** `landed` says that the transaction's changes are in the log; `dropped`, that they were, and that
      the log has since been replaced by a snapshot in which the transaction had not committed. `sees`
      is the transactions that had committed when its own snapshot was taken. */
  datatype Tx = Tx(ctl: Control, outcome: Status, wrote: bool, landed: bool, dropped: bool, sees: set<TxID>)

  datatype Db = Db(next: TxID, begun: set<TxID>, txs: map<TxID, Tx>, tabs: map<Name, Tab>,
                   open: bool, dirty: bool)

  function CommittedOf(txs: map<TxID, Tx>): set<TxID> { set t | t in txs && txs[t].outcome == Committed }

  function Changed(m: Rows, ins: Rows, del: set<RowID>): Rows { (m + ins) - del }

  function Snap(tab: Tab, t: TxID): Rows { if t in tab.snap then tab.snap[t] else map[] }

  function Ins(tab: Tab, t: TxID): Rows { if t in tab.ins then tab.ins[t] else map[] }

  function Del(tab: Tab, t: TxID): set<RowID> { if t in tab.del then tab.del[t] else {} }

  /** What a transaction reads. */
  function View(tab: Tab, t: TxID): Rows { Changed(Snap(tab, t), Ins(tab, t), Del(tab, t)) }

  /** Another transaction that has not aborted already deleted the row. */
  ghost predicate Taken(a: Db, tab: Tab, t: TxID, id: RowID) {
    exists u :: u in a.txs && u != t && a.txs[u].outcome != Aborted && id in Del(tab, u)
  }

  ghost predicate CanWrite(a: Db, t: TxID) {
    t in a.txs && a.txs[t].ctl.stage == Running && !a.txs[t].ctl.failed
  }

  ghost predicate CanDelete(a: Db, t: TxID, n: Name, id: RowID)
  {
    && CanWrite(a, t) && n in a.tabs
    && (id in View(a.tabs[n], t) || id in Del(a.tabs[n], t))
    && !Taken(a, a.tabs[n], t, id)
  }

  function OpenTab(tab: Tab, t: TxID): Tab {
    Tab(tab.base, tab.committed, tab.durable, tab.nextRow,
        tab.snap[t := tab.committed], tab.ins[t := map[]], tab.del[t := {}])
  }

  function RefreshTab(tab: Tab, t: TxID): Tab {
    Tab(tab.base, tab.committed, tab.durable, tab.nextRow, tab.snap[t := tab.committed], tab.ins, tab.del)
  }

  function LandTab(tab: Tab, t: TxID): Tab {
    Tab(tab.base, tab.committed, Changed(tab.durable, Ins(tab, t), Del(tab, t)), tab.nextRow, tab.snap, tab.ins, tab.del)
  }

  function CommitTab(tab: Tab, t: TxID): Tab {
    Tab(tab.base, Changed(tab.committed, Ins(tab, t), Del(tab, t)), tab.durable, tab.nextRow, tab.snap, tab.ins, tab.del)
  }

  /** The log holds what `t` sees and nothing else. */
  function ReplacedTab(tab: Tab, t: TxID): Tab {
    Tab(tab.base, tab.committed, View(tab, t), tab.nextRow, tab.snap, tab.ins, tab.del)
  }

  ghost function CrashTab(tab: Tab): Tab {
    Tab(tab.durable, tab.durable, tab.durable, LoadHeap(tab.durable).nextRow, map[], map[], map[])
  }

  function InsertTab(tab: Tab, t: TxID, vals: Row): Tab {
    Tab(tab.base, tab.committed, tab.durable, tab.nextRow + 1,
        tab.snap, tab.ins[t := With(Ins(tab, t), tab.nextRow, vals)], tab.del)
  }

  function DeleteTab(tab: Tab, t: TxID, id: RowID): Tab {
    Tab(tab.base, tab.committed, tab.durable, tab.nextRow,
        tab.snap, tab.ins, tab.del[t := Del(tab, t) + {id}])
  }

  function With(m: Rows, id: RowID, vals: Row): Rows { m[id := vals] }

  function SetTx(a: Db, t: TxID, x: Tx): Db { a.(txs := a.txs[t := x]) }

  function DoneTx(x: Tx, outcome: Status): Tx {
    x.(ctl := Control(x.ctl.iso, x.ctl.failed, Done), outcome := outcome)
  }

  function OpenedTx(iso: Isolation, sees: set<TxID>): Tx {
    Tx(Control(iso, false, Running), InProgress, false, false, false, sees)
  }

  function RefreshedTx(x: Tx, sees: set<TxID>): Tx { x.(sees := sees) }

  function FailedTx(x: Tx): Tx { x.(ctl := Control(x.ctl.iso, true, x.ctl.stage)) }

  function WroteTx(x: Tx): Tx { x.(wrote := true) }

  function ReplacedTx(x: Tx, seen: bool): Tx { x.(landed := seen, dropped := (x.landed || x.dropped) && !seen) }

  /** Whether flushing reaches the log: there is something to write and the log takes it. */
  predicate Lands(a: Db, t: TxID, io: Io) {
    t in a.txs && a.txs[t].wrote && a.open && io != Lost
  }

  /** A flush with nothing to write always succeeds. */
  predicate FlushOk(a: Db, t: TxID, io: Io)
    requires t in a.txs
  {
    !a.txs[t].wrote || (a.open && io == Written)
  }

  function FlushedTx(a: Db, t: TxID, io: Io): Tx
    requires t in a.txs
  {
    var x := a.txs[t];
    if FlushOk(a, t, io) then x.(ctl := Control(x.ctl.iso, x.ctl.failed, Flushed), landed := true)
    else x.(ctl := Control(x.ctl.iso, x.ctl.failed, Done), outcome := Aborted, landed := Lands(a, t, io))
  }

  function FlushControl(a: Db, t: TxID, io: Io): Db
    requires t in a.txs
  {
    a.(txs := a.txs[t := FlushedTx(a, t, io)],
       open := a.open && FlushOk(a, t, io), dirty := a.dirty || Lands(a, t, io))
  }

  ghost predicate CanReplace(a: Db, t: TxID, order: seq<Name>) {
    CanWrite(a, t) && a.txs[t].ctl.iso == RepeatableRead && !a.txs[t].wrote && Covers(order, a.tabs.Keys)
  }

  function ReplacedControl(a: Db, t: TxID): Db
    requires t in a.txs
  {
    a.(dirty := !a.open, txs := map u | u in a.txs :: ReplacedTx(a.txs[u], u in a.txs[t].sees))
  }

  /** What an event does to the transactions. */
  ghost function ControlStep(a: Db, ev: Event): Db
  {
    match ev
    case Begin => a.(next := a.next + 1, begun := a.begun + {a.next})
    case Open(t, iso) =>
      if t in a.begun && t !in a.txs then
        SetTx(a, t, OpenedTx(iso, CommittedOf(a.txs))).(begun := a.begun - {t})
      else a
    case NextStatement(t) =>
      if CanWrite(a, t) && a.txs[t].ctl.iso == ReadCommitted then
        SetTx(a, t, RefreshedTx(a.txs[t], CommittedOf(a.txs)))
      else a
    case InsertRow(t, n, vals) =>
      if CanWrite(a, t) && n in a.tabs then SetTx(a, t, WroteTx(a.txs[t])) else a
    case DeleteRow(t, n, id) =>
      if CanDelete(a, t, n, id) then SetTx(a, t, WroteTx(a.txs[t])) else a
    case Fail(t) =>
      if t in a.txs && a.txs[t].ctl.stage == Running then SetTx(a, t, FailedTx(a.txs[t])) else a
    case Flush(t, io) => if CanWrite(a, t) then FlushControl(a, t, io) else a
    case FinishCommit(t) =>
      if t in a.txs && a.txs[t].ctl.stage == Flushed then SetTx(a, t, DoneTx(a.txs[t], Committed)) else a
    case Rollback(t) =>
      if t in a.txs && a.txs[t].ctl.stage == Running then SetTx(a, t, DoneTx(a.txs[t], Aborted)) else a
    case ReplaceLog(t, order) => if CanReplace(a, t, order) && a.dirty then ReplacedControl(a, t) else a
    case Crash => Db(2, {}, map[], a.tabs, true, false)
    case _ => a
  }

  /** What an event does to one table. */
  ghost function TabStep(a: Db, ev: Event, n: Name): Tab
    requires n in a.tabs
  {
    var tab := a.tabs[n];
    match ev
    case Open(t, iso) => if t in a.begun && t !in a.txs then OpenTab(tab, t) else tab
    case NextStatement(t) =>
      if CanWrite(a, t) && a.txs[t].ctl.iso == ReadCommitted then RefreshTab(tab, t) else tab
    case InsertRow(t, m, vals) => if CanWrite(a, t) && m == n then InsertTab(tab, t, vals) else tab
    case DeleteRow(t, m, id) => if m == n && CanDelete(a, t, m, id) then DeleteTab(tab, t, id) else tab
    case Flush(t, io) => if CanWrite(a, t) && Lands(a, t, io) then LandTab(tab, t) else tab
    case FinishCommit(t) => if t in a.txs && a.txs[t].ctl.stage == Flushed then CommitTab(tab, t) else tab
    case ReplaceLog(t, order) => if CanReplace(a, t, order) && a.dirty then ReplacedTab(tab, t) else tab
    case Crash => CrashTab(tab)
    case _ => tab
  }

  ghost function DbStep(a: Db, ev: Event): Db
  {
    var c := ControlStep(a, ev);
    Db(c.next, c.begun, c.txs, map n | n in a.tabs :: TabStep(a, ev, n), c.open, c.dirty)
  }

  ghost function DbRun(a: Db, evs: seq<Event>): Db {
    if evs == [] then a else DbStep(DbRun(a, evs[..|evs| - 1]), evs[|evs| - 1])
  }
}
