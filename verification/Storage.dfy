/** The transaction manager and the versioned row heap of one table. */
module Storage {
  import opened Values

  type TxID = nat
  const INVALID_TX: TxID := 0

  type RowID = nat

  datatype Status = InProgress | Committed | Aborted

  /** An id that was never issued reads as aborted. */
  function Outcome(status: map<TxID, Status>, id: TxID): Status {
    if id in status then status[id] else Aborted
  }

  /** The three fields the manager's lock guards together. */
  datatype Mgr = Mgr(next: TxID, status: map<TxID, Status>, active: set<TxID>)

  ghost predicate ValidMgr(m: Mgr) {
    && 1 <= m.next
    && (forall id :: id in m.status <==> 1 <= id < m.next)
    && (forall id :: id in m.active <==> id in m.status && m.status[id] == InProgress)
  }

  const EMPTY_MGR := Mgr(1, map[], {})

  function Issued(m: Mgr): Mgr {
    Mgr(m.next + 1, m.status[m.next := InProgress], m.active + {m.next})
  }

  /** Finishing an unknown or an already finished transaction changes nothing. */
  function Finished(m: Mgr, id: TxID, s: Status): (r: Mgr)
    ensures r.next == m.next && r.status.Keys == m.status.Keys
  {
    if id in m.status && m.status[id] == InProgress
    then m.(status := m.status[id := s], active := m.active - {id})
    else m
  }

  /** Which transactions had finished when it was taken. */
  datatype Snapshot = Snapshot(xmin: TxID, xmax: TxID, active: set<TxID>)

  ghost predicate IsSnapshotOf(s: Snapshot, m: Mgr) {
    && s.xmax == m.next
    && s.active == m.active
    && (forall id :: id in s.active ==> s.xmin <= id)
    && (s.xmin == s.xmax || s.xmin in s.active)
    && s.xmin <= s.xmax
  }

  /** Whether a snapshot sees a transaction's writes, given today's outcomes. */
  predicate CommittedIn(s: Snapshot, status: map<TxID, Status>, id: TxID) {
    && id != INVALID_TX
    && id < s.xmax
    && !(id >= s.xmin && id in s.active)
    && Outcome(status, id) == Committed
  }

  /** One version of a row, as a value. */
  datatype Ver = Ver(id: RowID, xmin: TxID, xmax: TxID, vals: Row)

  predicate Created(v: Ver, s: Snapshot, status: map<TxID, Status>, self: TxID) {
    v.xmin == self || CommittedIn(s, status, v.xmin)
  }

  predicate Visible(v: Ver, s: Snapshot, status: map<TxID, Status>, self: TxID) {
    && Created(v, s, status, self)
    && (v.xmax == INVALID_TX || !(v.xmax == self || CommittedIn(s, status, v.xmax)))
  }

  /** The versions of one table, in write order. */
  datatype HeapState = HeapState(versions: seq<Ver>, nextRow: RowID)

  const EMPTY_HEAP := HeapState([], 1)

  function HeapInsert(h: HeapState, tx: TxID, vals: Row): HeapState {
    HeapState(h.versions + [Ver(h.nextRow, tx, INVALID_TX, vals)], h.nextRow + 1)
  }

  function HeapLoad(h: HeapState, tx: TxID, id: RowID, vals: Row): HeapState {
    HeapState(h.versions + [Ver(id, tx, INVALID_TX, vals)],
              if id >= h.nextRow then id + 1 else h.nextRow)
  }

  /** A deletion conflicts unless the version is free, its own, or taken by an aborted transaction. */
  predicate DeleteConflicts(v: Ver, status: map<TxID, Status>, tx: TxID) {
    v.xmax != INVALID_TX && v.xmax != tx && Outcome(status, v.xmax) != Aborted
  }

  function Stamp(vs: seq<Ver>, id: RowID, tx: TxID): (r: seq<Ver>)
    ensures |r| == |vs|
    ensures forall i :: 0 <= i < |vs| ==> r[i] == if vs[i].id == id then vs[i].(xmax := tx) else vs[i]
  {
    seq(|vs|, i requires 0 <= i < |vs| => if vs[i].id == id then vs[i].(xmax := tx) else vs[i])
  }

  function ScanVersions(vs: seq<Ver>, s: Snapshot, status: map<TxID, Status>, self: TxID): seq<Ver> {
    if vs == [] then []
    else
      var rest := ScanVersions(vs[..|vs| - 1], s, status, self);
      var v := vs[|vs| - 1];
      if Visible(v, s, status, self) then rest + [v] else rest
  }

  predicate DeadTo(v: Ver, status: map<TxID, Status>, horizon: TxID) {
    || Outcome(status, v.xmin) == Aborted
    || (v.xmax != INVALID_TX && v.xmax < horizon && Outcome(status, v.xmax) == Committed)
  }

  function VacuumVersions(vs: seq<Ver>, status: map<TxID, Status>, horizon: TxID): seq<Ver> {
    if vs == [] then []
    else
      var rest := VacuumVersions(vs[..|vs| - 1], status, horizon);
      var v := vs[|vs| - 1];
      if DeadTo(v, status, horizon) then rest else rest + [v]
  }

  /** Hands out transaction ids and remembers their outcome. */
  class TxManager {
    var next: TxID
    var status: map<TxID, Status>
    var active: set<TxID>

    ghost function Model(): Mgr reads this { Mgr(next, status, active) }

    constructor ()
      ensures Model() == EMPTY_MGR && ValidMgr(Model())
    {
      next, status, active := 1, map[], {};
    }

    method Begin() returns (id: TxID)
      requires ValidMgr(Model())
      modifies this
      ensures ValidMgr(Model()) && Model() == Issued(old(Model()))
      ensures id == old(next) && id !in old(status)
    {
      id := next;
      next := next + 1;
      status := status[id := InProgress];
      active := active + {id};
    }

    method Finish(id: TxID, s: Status)
      requires ValidMgr(Model()) && s != InProgress
      modifies this
      ensures ValidMgr(Model()) && Model() == Finished(old(Model()), id, s)
    {
      if id !in status { return; }
      if status[id] != InProgress { return; }
      status := status[id := s];
      active := active - {id};
    }

    function StatusOf(id: TxID): Status
      reads this
    {
      Outcome(status, id)
    }

    /** The least id still in progress, or the next id when nothing is. */
    method Horizon() returns (oldest: TxID)
      requires ValidMgr(Model())
      ensures oldest == next || oldest in active
      ensures forall id :: id in active ==> oldest <= id
      ensures forall id :: 1 <= id < oldest ==> StatusOf(id) != InProgress
    {
      oldest := next;
      var todo := active;
      while todo != {}
        invariant todo <= active
        invariant oldest == next || oldest in active
        invariant oldest <= next
        invariant forall id :: id in active && id !in todo ==> oldest <= id
      {
        var id :| id in todo;
        if id < oldest { oldest := id; }
        todo := todo - {id};
      }
    }

    /** Copies the active set, tracking its least member on the way. */
    method Take() returns (s: Snapshot)
      requires ValidMgr(Model())
      ensures IsSnapshotOf(s, Model())
    {
      var xmin := next;
      var copied: set<TxID> := {};
      var todo := active;
      while todo != {}
        invariant todo <= active && copied == active - todo
        invariant xmin == next || xmin in copied
        invariant xmin <= next
        invariant forall id :: id in copied ==> xmin <= id
      {
        var id :| id in todo;
        copied := copied + {id};
        if id < xmin { xmin := id; }
        todo := todo - {id};
      }
      s := Snapshot(xmin, next, copied);
    }
  }

  /** A linked version. Only its deleter ever changes. */
  class Version {
    const id: RowID
    const xmin: TxID
    const vals: Row
    var xmax: TxID

    constructor (id: RowID, xmin: TxID, vals: Row)
      ensures this.id == id && this.xmin == xmin && this.vals == vals && xmax == INVALID_TX
    {
      this.id, this.xmin, this.vals, xmax := id, xmin, vals, INVALID_TX;
    }

    ghost function Model(): Ver reads this { Ver(id, xmin, xmax, vals) }

    /** The reader's rule of heap.go, over the manager's present outcomes. */
    method IsVisible(mgr: TxManager, s: Snapshot, self: TxID) returns (b: bool)
      ensures b == Visible(Model(), s, mgr.status, self)
    {
      var created := xmin == self || CommittedIn(s, mgr.status, xmin);
      if !created { return false; }
      if xmax == INVALID_TX { return true; }
      var deleted := xmax == self || CommittedIn(s, mgr.status, xmax);
      return !deleted;
    }
  }

  /** Distinct versions with distinct row ids below the next one. */
  predicate Clean(vs: seq<Version>, next: RowID) {
    && (forall i, j :: 0 <= i < j < |vs| ==> vs[i] != vs[j] && vs[i].id != vs[j].id)
    && (forall i :: 0 <= i < |vs| ==> vs[i].id < next)
  }

  /** Every version of every row of one table. */
  class Heap {
    const mgr: TxManager
    var versions: seq<Version>
    var nextRow: RowID

    /** The linked versions are distinct objects with distinct row ids below `nextRow`. */
    ghost predicate Valid()
      reads this
    {
      Clean(versions, nextRow)
    }

    ghost function Vers(): (r: seq<Ver>)
      reads this, versions
      ensures |r| == |versions| && forall i :: 0 <= i < |r| ==> r[i] == versions[i].Model()
    {
      VersOf(versions)
    }

    ghost function Model(): HeapState
      reads this, versions
    {
      HeapState(Vers(), nextRow)
    }

    constructor (mgr: TxManager)
      ensures this.mgr == mgr && Valid() && Model() == EMPTY_HEAP && versions == []
    {
      this.mgr, versions, nextRow := mgr, [], 1;
    }

    method Insert(tx: TxID, vals: Row) returns (v: Version)
      requires Valid()
      modifies this
      ensures Valid() && Model() == HeapInsert(old(Model()), tx, vals)
      ensures fresh(v) && versions == old(versions) + [v] && v.id == old(nextRow)
    {
      v := new Version(nextRow, tx, vals);
      nextRow := nextRow + 1;
      versions := versions + [v];
      assert Vers() == old(Vers()) + [v.Model()];
    }

    method Load(tx: TxID, id: RowID, vals: Row)
      requires Valid() && forall i :: 0 <= i < |versions| ==> versions[i].id != id
      modifies this
      ensures Valid() && Model() == HeapLoad(old(Model()), tx, id, vals)
      ensures |versions| == |old(versions)| + 1 && old(versions) <= versions
      ensures fresh(versions[|versions| - 1]) && versions[|versions| - 1].id == id
    {
      var v := new Version(id, tx, vals);
      versions := versions + [v];
      if id >= nextRow { nextRow := id + 1; }
      assert Vers() == old(Vers()) + [v.Model()];
    }

    /** Reports a write conflict and changes nothing, or stamps the one version as deleted. */
    method Delete(tx: TxID, v: Version) returns (conflict: bool)
      requires Valid() && v in versions
      modifies v
      ensures Valid() && conflict == DeleteConflicts(old(v.Model()), mgr.status, tx)
      ensures conflict ==> Model() == old(Model())
      ensures !conflict ==> Model() == HeapState(Stamp(old(Vers()), v.id, tx), nextRow)
    {
      if v.xmax != INVALID_TX && v.xmax != tx {
        if mgr.StatusOf(v.xmax) == InProgress { return true; }
        if mgr.StatusOf(v.xmax) == Committed { return true; }
      }
      v.xmax := tx;
      assert Vers() == Stamp(old(Vers()), v.id, tx);
      return false;
    }

    method Scan(s: Snapshot, self: TxID) returns (out: seq<Version>)
      ensures VersOf(out) == ScanVersions(Vers(), s, mgr.status, self)
      ensures forall v :: v in out ==> v in versions
    {
      out := [];
      for i := 0 to |versions|
        invariant forall v :: v in out ==> v in versions
        invariant VersOf(out) == ScanVersions(Vers()[..i], s, mgr.status, self)
      {
        var seen := versions[i].IsVisible(mgr, s, self);
        assert Vers()[..i + 1][..i] == Vers()[..i];
        if seen {
          assert VersOf(out + [versions[i]]) == VersOf(out) + [versions[i].Model()];
          out := out + [versions[i]];
        }
      }
      assert Vers()[..|versions|] == Vers();
    }

    /** Compacts the versions in place, counting what it drops. */
    method Vacuum(horizon: TxID) returns (removed: nat)
      requires Valid()
      modifies this
      ensures Valid() && Model() == HeapState(VacuumVersions(old(Vers()), mgr.status, horizon), old(nextRow))
      ensures removed == |old(versions)| - |versions|
    {
      hide VacuumVersions, Outcome, Clean, VersOf;
      var kept: seq<Version> := [];
      removed := 0;
      ghost var all, status := Vers(), mgr.status;
      assert [] + versions[0..] == versions;
      assert VacuumVersions(all[..0], status, horizon) == [] by { VacuumNone(status, horizon); }
      for i := 0 to |versions|
        invariant unchanged(this) && |kept| + removed == i && all == Vers() && status == mgr.status
        invariant Clean(kept + versions[i..], nextRow)
        invariant VersOf(kept) == VacuumVersions(all[..i], status, horizon)
      {
        var v := versions[i];
        VacuumNext(all, i, status, horizon);
        if mgr.StatusOf(v.xmin) == Aborted
           || (v.xmax != INVALID_TX && v.xmax < horizon && mgr.StatusOf(v.xmax) == Committed) {
          CleanWithout(kept, versions[i..], nextRow);
          removed := removed + 1;
        } else {
          KeepOne(kept, versions, i);
          kept := kept + [v];
        }
      }
      assert all[..|versions|] == all;
      assert kept + versions[|versions|..] == kept;
      ghost var left := VersOf(kept);
      assert left == VacuumVersions(all, status, horizon);
      versions := kept;
      assert Vers() == left;
    }
  }

  lemma CleanWithout(kept: seq<Version>, rest: seq<Version>, next: RowID)
    requires rest != [] && Clean(kept + rest, next)
    ensures Clean(kept + rest[1..], next)
  {
    var all, less := kept + rest, kept + rest[1..];
    assert forall i :: 0 <= i < |less| ==> less[i] == all[if i < |kept| then i else i + 1];
  }

  lemma KeepOne(kept: seq<Version>, vs: seq<Version>, i: nat)
    requires i < |vs|
    ensures kept + vs[i..] == (kept + [vs[i]]) + vs[i + 1..]
    ensures VersOf(kept + [vs[i]]) == VersOf(kept) + [vs[i].Model()]
  {}

  lemma VacuumNone(status: map<TxID, Status>, horizon: TxID)
    ensures VacuumVersions([], status, horizon) == []
  {}

  lemma VacuumNext(vs: seq<Ver>, i: nat, status: map<TxID, Status>, horizon: TxID)
    requires i < |vs|
    ensures VacuumVersions(vs[..i + 1], status, horizon)
            == VacuumVersions(vs[..i], status, horizon) + (if DeadTo(vs[i], status, horizon) then [] else [vs[i]])
  {
    hide DeadTo;
    assert vs[..i + 1][..i] == vs[..i];
    assert VacuumVersions(vs[..i], status, horizon) + [] == VacuumVersions(vs[..i], status, horizon);
  }

  ghost function VersOf(vs: seq<Version>): (r: seq<Ver>)
    reads vs
    ensures |r| == |vs| && forall i :: 0 <= i < |r| ==> r[i] == vs[i].Model()
  {
    seq(|vs|, i requires 0 <= i < |vs| reads vs => vs[i].Model())
  }
}
