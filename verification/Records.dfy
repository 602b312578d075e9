/** The logical change records of the write-ahead log and what replaying them does to one table. */
module Records {
  import opened Values
  import opened Storage

  /** A schema-qualified table name. */
  datatype Name = Name(text: bytes)
  type Rows = map<RowID, Row>

  datatype Record =
    | Ddl(sql: bytes)
    | Insert(table: Name, row: RowID, vals: Row)
    | Delete(table: Name, row: RowID)
    | Missing(table: Name, column: nat, missing: Value)

  /** One record's effect on the rows collected for table `n`. */
  function ReplayRecord(n: Name, m: Rows, r: Record): Rows {
    match r
    case Insert(t, id, vals) => if t == n then m[id := vals] else m
    case Delete(t, id) => if t == n then m - {id} else m
    case _ => m
  }

  function Replay(n: Name, m: Rows, recs: seq<Record>): Rows {
    if recs == [] then m
    else ReplayRecord(n, Replay(n, m, recs[..|recs| - 1]), recs[|recs| - 1])
  }

  function Flatten<T>(frames: seq<seq<T>>): seq<T> {
    if frames == [] then [] else Flatten(frames[..|frames| - 1]) + frames[|frames| - 1]
  }

  /** What recovery collects for a table from a whole log. */
  function Recover(n: Name, log: seq<seq<Record>>): Rows {
    Replay(n, map[], Flatten(log))
  }

  lemma {:induction false} ReplayAppend(n: Name, m: Rows, a: seq<Record>, b: seq<Record>)
    ensures Replay(n, m, a + b) == Replay(n, Replay(n, m, a), b)
  {
    if b == [] {
      assert a + b == a;
    } else {
      ReplayAppend(n, m, a, b[..|b| - 1]);
      assert (a + b)[..|a + b| - 1] == a + b[..|b| - 1];
    }
  }

  lemma RecoverAppend(n: Name, log: seq<seq<Record>>, frame: seq<Record>)
    ensures Recover(n, log + [frame]) == Replay(n, Recover(n, log), frame)
  {
    assert (log + [frame])[..|log|] == log;
    ReplayAppend(n, map[], Flatten(log), frame);
  }

  /** Whether a record writes to this row of the table. */
  predicate Writes(r: Record, n: Name, id: RowID) {
    (r.Insert? || r.Delete?) && r.table == n && r.row == id
  }

  /** The last record that writes to a row decides: it is there with an insert's values, or not there
      after a delete; a row no record writes to is as it was. */
  lemma {:induction false} LastWriteDecides(n: Name, m: Rows, recs: seq<Record>, id: RowID)
    ensures var out := Replay(n, m, recs);
            && ((forall i :: 0 <= i < |recs| ==> !Writes(recs[i], n, id)) ==>
                  (id in out <==> id in m) && (id in m ==> out[id] == m[id]))
            && (forall j :: 0 <= j < |recs| && Writes(recs[j], n, id) && (forall i :: j < i < |recs| ==> !Writes(recs[i], n, id)) ==>
                  (id in out <==> recs[j].Insert?) && (recs[j].Insert? ==> out[id] == recs[j].vals))
  {
    if recs != [] {
      var k := |recs| - 1;
      LastWriteDecides(n, m, recs[..k], id);
      assert forall i :: 0 <= i < k ==> recs[..k][i] == recs[i];
    }
  }
}
