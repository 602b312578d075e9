/** ADD COLUMN without rewriting rows: short rows are widened when read, and a checkpoint writes them
    out wide. */
module Columns {
  import opened Values
  import opened Storage
  import opened Records

  /** A row at the table's width: the columns it lacks read as their missing values. */
  function Widen(missing: seq<Value>, row: seq<Value>): (r: seq<Value>)
    requires |row| <= |missing|
    ensures |r| == |missing|
  {
    row + missing[|row|..]
  }

  /** A table's missing values, one per column, and its rows as stored. */
  datatype Tab = Tab(missing: seq<Value>, rows: map<RowID, seq<Value>>, next: RowID)

  datatype Op =
    | Insert(vals: seq<Value>)
    | Update(id: RowID, vals: seq<Value>)
    | Delete(id: RowID)
    | AddColumn(v: Value)
    | AddExisting(ordinal: nat)

  ghost predicate Short(t: Tab) { forall id :: id in t.rows ==> |t.rows[id]| <= |t.missing| }

  /** What every reader sees. */
  ghost function Read(t: Tab): map<RowID, seq<Value>>
    requires Short(t)
  {
    map id | id in t.rows :: Widen(t.missing, t.rows[id])
  }

  /** A statement writes rows at the table's present width; ADD COLUMN leaves the stored rows alone. */
  function Lazy(t: Tab, op: Op): Tab {
    match op
    case Insert(vals) => if |vals| == |t.missing| then Tab(t.missing, t.rows[t.next := vals], t.next + 1) else t
    case Update(id, vals) =>
      if id in t.rows && |vals| == |t.missing| then Tab(t.missing, (t.rows - {id})[t.next := vals], t.next + 1) else t
    case Delete(id) => t.(rows := t.rows - {id})
    case AddColumn(v) => t.(missing := t.missing + [v])
    case AddExisting(_) => t
  }

  /** The reference: a table every row of which has every column, so that ADD COLUMN rewrites them all. A
      row is inserted under the next id, an update moves it there, and rows of the wrong width are refused. */
  ghost function Eager(t: Tab, op: Op): Tab {
    match op
    case AddColumn(v) => Tab(t.missing + [v], map id | id in t.rows :: t.rows[id] + [v], t.next)
    case AddExisting(_) => t
    case Delete(gone) => Tab(t.missing, map id | id in t.rows && id != gone :: t.rows[id], t.next)
    case Insert(vals) =>
      if |vals| != |t.missing| then t
      else Tab(t.missing, map id | id in t.rows.Keys + {t.next} :: if id == t.next then vals else t.rows[id], t.next + 1)
    case Update(was, vals) =>
      if |vals| != |t.missing| || was !in t.rows then t
      else Tab(t.missing, map id | id in t.rows.Keys - {was} + {t.next} :: if id == t.next then vals else t.rows[id], t.next + 1)
  }

  function LazyRun(t: Tab, ops: seq<Op>): Tab {
    if ops == [] then t else Lazy(LazyRun(t, ops[..|ops| - 1]), ops[|ops| - 1])
  }

  ghost function EagerRun(t: Tab, ops: seq<Op>): Tab {
    if ops == [] then t else Eager(EagerRun(t, ops[..|ops| - 1]), ops[|ops| - 1])
  }

  lemma WidenMore(missing: seq<Value>, v: Value, row: seq<Value>)
    requires |row| <= |missing|
    ensures Widen(missing + [v], row) == Widen(missing, row) + [v]
  {}

  lemma WidenFull(missing: seq<Value>, row: seq<Value>)
    requires |row| == |missing|
    ensures Widen(missing, row) == row
  {}

  lemma LazyKeepsShort(t: Tab, op: Op)
    requires Short(t)
    ensures Short(Lazy(t, op))
  {}

  lemma StepSame(l: Tab, e: Tab, op: Op)
    requires Short(l) && e == Tab(l.missing, Read(l), l.next)
    ensures Short(Lazy(l, op)) && Eager(e, op) == Tab(Lazy(l, op).missing, Read(Lazy(l, op)), Lazy(l, op).next)
  {
    LazyKeepsShort(l, op);
    if op.AddColumn? {
      forall id | id in l.rows { WidenMore(l.missing, op.v, l.rows[id]); }
    } else {
      SameWidth(l, op);
    }
  }

  /** A row change changes what is read just as it changes what is stored. */
  lemma SameWidth(l: Tab, op: Op)
    requires Short(l) && !op.AddColumn?
    ensures Short(Lazy(l, op)) && Eager(Tab(l.missing, Read(l), l.next), op) == Tab(l.missing, Read(Lazy(l, op)), Lazy(l, op).next)
  {
    LazyKeepsShort(l, op);
    match op
    case Insert(vals) =>
      if |vals| == |l.missing| {
        WidenFull(l.missing, vals);
        var e := Eager(Tab(l.missing, Read(l), l.next), op);
        assert e.rows == Read(Lazy(l, op));
      }
    case Update(was, vals) =>
      if |vals| == |l.missing| && was in l.rows { UpdateSame(l, was, vals); }
    case Delete(_) =>
    case AddExisting(_) =>
  }

  lemma UpdateSame(l: Tab, was: RowID, vals: seq<Value>)
    requires Short(l) && |vals| == |l.missing| && was in l.rows && Short(Lazy(l, Update(was, vals)))
    ensures Eager(Tab(l.missing, Read(l), l.next), Update(was, vals)).rows == Read(Lazy(l, Update(was, vals)))
  {
    hide Widen;
    WidenFull(l.missing, vals);
  }

  /** After any mix of inserts, updates, deletes and ADD COLUMNs, reading short rows through their
      missing values gives exactly the rows of the table that is rewritten at every ADD COLUMN. */
  lemma {:induction false} LazyEqualsEager(t: Tab, ops: seq<Op>)
    requires Short(t) && Read(t) == t.rows
    ensures var l, e := LazyRun(t, ops), EagerRun(t, ops);
            Short(l) && e == Tab(l.missing, Read(l), l.next)
  {
    hide Lazy, Eager, Short, Read;
    if ops != [] {
      LazyEqualsEager(t, ops[..|ops| - 1]);
      StepSame(LazyRun(t, ops[..|ops| - 1]), EagerRun(t, ops[..|ops| - 1]), ops[|ops| - 1]);
    }
  }

  // ---- the log ----

  /** What one table's log says: a schema statement that adds a column, whose default is evaluated again
      on replay, the value that column's short rows really take, and row changes. */
  datatype Entry =
    | Added(recomputed: Value)
    | AddedNothing
    | MissingIs(ordinal: nat, v: Value)
    | Put(id: RowID, vals: seq<Value>)
    | Gone(id: RowID)

  function Entries(t: Tab, op: Op, recomputed: Value): seq<Entry> {
    match op
    case Insert(vals) => if |vals| == |t.missing| then [Put(t.next, vals)] else []
    case Update(id, vals) => if id in t.rows && |vals| == |t.missing| then [Gone(id), Put(t.next, vals)] else []
    case Delete(id) => [Gone(id)]
    case AddColumn(v) => [Added(recomputed), MissingIs(|t.missing|, v)]
    case AddExisting(i) => if i < |t.missing| then [AddedNothing, MissingIs(i, t.missing[i])] else []
  }

  /** What recovery has collected: the columns and the rows as logged. */
  datatype Held = Held(missing: seq<Value>, rows: map<RowID, seq<Value>>)

  function ReplayEntry(h: Held, e: Entry): Held {
    match e
    case Added(v) => h.(missing := h.missing + [v])
    case AddedNothing => h
    case MissingIs(i, v) => if i < |h.missing| then h.(missing := h.missing[i := v]) else h
    case Put(id, vals) => h.(rows := h.rows[id := vals])
    case Gone(id) => h.(rows := h.rows - {id})
  }

  function ReplayAll(h: Held, es: seq<Entry>): Held {
    if es == [] then h else ReplayEntry(ReplayAll(h, es[..|es| - 1]), es[|es| - 1])
  }

  lemma {:induction false} ReplayAppend(h: Held, a: seq<Entry>, b: seq<Entry>)
    ensures ReplayAll(h, a + b) == ReplayAll(ReplayAll(h, a), b)
  {
    if b == [] {
      assert a + b == a;
    } else {
      assert (a + b)[..|a + b| - 1] == a + b[..|b| - 1];
      ReplayAppend(h, a, b[..|b| - 1]);
    }
  }

  lemma ReplayTwo(h: Held, a: Entry, b: Entry)
    ensures ReplayAll(h, [a, b]) == ReplayEntry(ReplayEntry(h, a), b) && ReplayAll(h, [a]) == ReplayEntry(h, a)
  {
    assert [a, b][..1] == [a] && [a][..0] == [];
    assert ReplayAll(h, []) == h;
  }

  /** Replaying what a statement logged gives back the table it left, whatever its default evaluates to
      the second time. */
  lemma ReplayOfOp(t: Tab, op: Op, recomputed: Value)
    ensures ReplayAll(Held(t.missing, t.rows), Entries(t, op, recomputed)) == Held(Lazy(t, op).missing, Lazy(t, op).rows)
  {
    hide ReplayAll;
    var h := Held(t.missing, t.rows);
    NothingReplayed(h);
    match op
    case Insert(vals) => ReplayTwo(h, Put(t.next, vals), AddedNothing);
    case Update(id, vals) =>
      if id in t.rows && |vals| == |t.missing| {
        ReplayTwo(h, Gone(id), Put(t.next, vals));
        assert Entries(t, op, recomputed) == [Gone(id), Put(t.next, vals)];
      }
    case Delete(id) => ReplayTwo(h, Gone(id), AddedNothing);
    case AddColumn(v) => ReplayTwo(h, Added(recomputed), MissingIs(|t.missing|, v));
    case AddExisting(i) => if i < |t.missing| { ReplayTwo(h, AddedNothing, MissingIs(i, t.missing[i])); }
  }

  lemma NothingReplayed(h: Held)
    ensures ReplayAll(h, []) == h
  {}

  // ---- checkpoints ----

  /** The rows of a checkpoint, written wide, in some order. */
  function WideRows(h: Held, order: seq<RowID>): seq<Entry>
    requires forall i :: 0 <= i < |order| ==> order[i] in h.rows && |h.rows[order[i]]| <= |h.missing|
  {
    seq(|order|, i requires 0 <= i < |order| => Put(order[i], Widen(h.missing, h.rows[order[i]])))
  }

  ghost predicate ShortHeld(h: Held) { forall id :: id in h.rows ==> |h.rows[id]| <= |h.missing| }

  /** Two recovered tables that read alike. */
  ghost predicate Alike(g: Held, h: Held) {
    && g.missing == h.missing && g.rows.Keys == h.rows.Keys && ShortHeld(g) && ShortHeld(h)
    && forall id :: id in h.rows ==> Widen(g.missing, g.rows[id]) == Widen(h.missing, h.rows[id])
  }

  /** A schema change or a row change at a legal width keeps them alike. A missing value is set only on
      a column no row is short of, as recovery finds it right after the column was added. */
  lemma AlikeStep(g: Held, h: Held, e: Entry)
    requires Alike(g, h) && (e.Put? ==> |e.vals| <= |h.missing|)
    requires e.MissingIs? && e.ordinal < |h.missing| ==> h.missing[e.ordinal] == e.v
    ensures Alike(ReplayEntry(g, e), ReplayEntry(h, e))
  {
    match e
    case Added(v) =>
      forall id | id in h.rows ensures Widen(g.missing + [v], g.rows[id]) == Widen(h.missing + [v], h.rows[id]) {
        WidenMore(g.missing, v, g.rows[id]);
        WidenMore(h.missing, v, h.rows[id]);
      }
    case MissingIs(i, v) =>
      if i < |h.missing| { assert h.missing[i := v] == h.missing; }
    case _ =>
  }

  /** A column added and then given its missing value, as the two records that reach the log together. */
  lemma AlikeAdd(g: Held, h: Held, recomputed: Value, v: Value)
    requires Alike(g, h)
    ensures Alike(ReplayAll(g, [Added(recomputed), MissingIs(|g.missing|, v)]), ReplayAll(h, [Added(recomputed), MissingIs(|h.missing|, v)]))
  {
    hide ReplayAll, Alike;
    ReplayTwo(g, Added(recomputed), MissingIs(|g.missing|, v));
    ReplayTwo(h, Added(recomputed), MissingIs(|h.missing|, v));
    assert g.missing == h.missing by { AlikeMissing(g, h); }
    AlikeStep(g, h, Added(v));
    assert (g.missing + [recomputed])[|g.missing| := v] == g.missing + [v];
  }

  lemma AlikeMissing(g: Held, h: Held)
    requires Alike(g, h)
    ensures g.missing == h.missing
  {}

  /** Replaying the wide rows over the schema alone gives a table that reads like the one checkpointed. */
  lemma {:induction false} WideRowsRead(h: Held, order: seq<RowID>)
    requires ShortHeld(h) && forall i :: 0 <= i < |order| ==> order[i] in h.rows
    ensures var g := ReplayAll(Held(h.missing, map[]), WideRows(h, order));
            && g.missing == h.missing
            && (forall id :: id in g.rows <==> id in order)
            && (forall id :: id in order ==> g.rows[id] == Widen(h.missing, h.rows[id]))
  {
    if order != [] {
      var before, last := order[..|order| - 1], order[|order| - 1];
      WideRowsRead(h, before);
      assert WideRows(h, order)[..|order| - 1] == WideRows(h, before);
      assert forall id :: id in order <==> id in before || id == last;
    }
  }

  lemma CheckpointAlike(h: Held, order: seq<RowID>)
    requires ShortHeld(h) && (forall i :: 0 <= i < |order| ==> order[i] in h.rows) && (forall id :: id in h.rows ==> id in order)
    ensures Alike(ReplayAll(Held(h.missing, map[]), WideRows(h, order)), h)
  {
    hide ReplayAll, WideRows;
    WideRowsRead(h, order);
    var g := ReplayAll(Held(h.missing, map[]), WideRows(h, order));
    forall id | id in h.rows ensures Widen(g.missing, g.rows[id]) == Widen(h.missing, h.rows[id]) {
      WidenFull(h.missing, g.rows[id]);
    }
  }

  /** What a run of statements logs; `again` is what each default evaluates to when it is replayed. */
  function EntriesRun(t: Tab, ops: seq<Op>, again: seq<Value>): seq<Entry>
    requires |again| == |ops|
  {
    if ops == [] then []
    else
      var n := |ops| - 1;
      EntriesRun(t, ops[..n], again[..n]) + Entries(LazyRun(t, ops[..n]), ops[n], again[n])
  }

  lemma AlikeOp(g: Held, t: Tab, op: Op, recomputed: Value)
    requires Alike(g, Held(t.missing, t.rows))
    ensures Alike(ReplayAll(g, Entries(t, op, recomputed)), Held(Lazy(t, op).missing, Lazy(t, op).rows))
  {
    hide ReplayAll, Alike;
    var h := Held(t.missing, t.rows);
    AlikeMissing(g, h);
    ReplayOfOp(t, op, recomputed);
    NothingReplayed(g);
    var es := Entries(t, op, recomputed);
    match op
    case Insert(vals) =>
      if |vals| == |t.missing| { AlikeOne(g, h, Put(t.next, vals)); }
    case Update(id, vals) =>
      if es != [] { AlikeTwo(g, h, Gone(id), Put(t.next, vals)); }
    case Delete(id) => AlikeOne(g, h, Gone(id));
    case AddColumn(v) => AlikeAdd(g, h, recomputed, v);
    case AddExisting(i) =>
      if i < |t.missing| { AlikeTwo(g, h, AddedNothing, MissingIs(i, t.missing[i])); }
  }

  lemma AlikeOne(g: Held, h: Held, e: Entry)
    requires Alike(g, h) && !e.MissingIs? && !e.Added? && (e.Put? ==> |e.vals| <= |h.missing|)
    ensures Alike(ReplayAll(g, [e]), ReplayAll(h, [e]))
  {
    hide ReplayAll, Alike;
    AlikeStep(g, h, e);
    ReplayTwo(g, e, e);
    ReplayTwo(h, e, e);
  }

  lemma AlikeTwo(g: Held, h: Held, d: Entry, e: Entry)
    requires Alike(g, h) && !d.MissingIs? && !d.Added? && !d.Put? && (e.Put? ==> |e.vals| <= |h.missing|)
    requires e.MissingIs? && e.ordinal < |h.missing| ==> h.missing[e.ordinal] == e.v
    ensures Alike(ReplayAll(g, [d, e]), ReplayAll(h, [d, e]))
  {
    hide ReplayAll, Alike;
    AlikeStep(g, h, d);
    AlikeStep(ReplayEntry(g, d), ReplayEntry(h, d), e);
    ReplayTwo(g, d, e);
    ReplayTwo(h, d, e);
  }

  lemma {:induction false} AlikeRun(g: Held, t: Tab, ops: seq<Op>, again: seq<Value>)
    requires Alike(g, Held(t.missing, t.rows)) && |again| == |ops|
    ensures Alike(ReplayAll(g, EntriesRun(t, ops, again)), Held(LazyRun(t, ops).missing, LazyRun(t, ops).rows))
  {
    hide Alike, Lazy, Entries;
    if ops == [] {
      NothingReplayed(g);
    } else {
      var n := |ops| - 1;
      var before, now := EntriesRun(t, ops[..n], again[..n]), LazyRun(t, ops[..n]);
      AlikeRun(g, t, ops[..n], again[..n]);
      ReplayAppend(g, before, Entries(now, ops[n], again[n]));
      AlikeOp(ReplayAll(g, before), now, ops[n], again[n]);
    }
  }

  /** Recovering from the whole history gives the running table itself. */
  lemma {:induction false} HistoryReplays(t: Tab, ops: seq<Op>, again: seq<Value>)
    requires |again| == |ops|
    ensures ReplayAll(Held(t.missing, t.rows), EntriesRun(t, ops, again)) == Held(LazyRun(t, ops).missing, LazyRun(t, ops).rows)
  {
    hide Lazy, Entries;
    var h := Held(t.missing, t.rows);
    if ops == [] {
      NothingReplayed(h);
    } else {
      var n := |ops| - 1;
      HistoryReplays(t, ops[..n], again[..n]);
      ReplayAppend(h, EntriesRun(t, ops[..n], again[..n]), Entries(LazyRun(t, ops[..n]), ops[n], again[n]));
      ReplayOfOp(LazyRun(t, ops[..n]), ops[n], again[n]);
    }
  }

  // ---- the schema half of a checkpoint ----

  predicate IsSchema(e: Entry) { e.Added? || e.AddedNothing? || e.MissingIs? }

  /** The schema statements and missing values among what was logged, which the engine keeps and writes
      first when it replaces the log. */
  function SchemaOf(es: seq<Entry>): seq<Entry> {
    if es == [] then []
    else
      var last := es[|es| - 1];
      SchemaOf(es[..|es| - 1]) + (if IsSchema(last) then [last] else [])
  }

  lemma SchemaEntry(h: Held, e: Entry)
    ensures if IsSchema(e) then ReplayEntry(Held(h.missing, map[]), e) == Held(ReplayEntry(h, e).missing, map[])
            else ReplayEntry(h, e).missing == h.missing
  {}

  /** Replaying the schema alone gives the columns that replaying everything gives, and no rows. */
  lemma {:induction false} SchemaAlone(missing: seq<Value>, rows: map<RowID, seq<Value>>, es: seq<Entry>)
    ensures ReplayAll(Held(missing, map[]), SchemaOf(es)) == Held(ReplayAll(Held(missing, rows), es).missing, map[])
  {
    hide ReplayEntry;
    if es != [] {
      var before, last := es[..|es| - 1], es[|es| - 1];
      SchemaAlone(missing, rows, before);
      SchemaEntry(ReplayAll(Held(missing, rows), before), last);
      if IsSchema(last) { assert SchemaOf(es)[..|SchemaOf(es)| - 1] == SchemaOf(before); }
      else { assert SchemaOf(es) == SchemaOf(before); }
    }
  }

  /** Replaying the schema half of a checkpoint over the table as it was created gives the columns the
      checkpointed table had, with the missing values its rows were read with, although every default is
      evaluated again. */
  lemma SchemaReplays(t: Tab, ops: seq<Op>, again: seq<Value>)
    requires |again| == |ops|
    ensures ReplayAll(Held(t.missing, map[]), SchemaOf(EntriesRun(t, ops, again))) == Held(LazyRun(t, ops).missing, map[])
  {
    hide ReplayAll, SchemaOf, EntriesRun, LazyRun;
    SchemaAlone(t.missing, t.rows, EntriesRun(t, ops, again));
    HistoryReplays(t, ops, again);
  }

  // ---- recovering from a checkpoint ----

  /** A checkpoint's frame: the schema entries, then every row at the table's width. */
  function Frame(t: Tab, ops: seq<Op>, again: seq<Value>, order: seq<RowID>): seq<Entry>
    requires |again| == |ops|
    requires Lists(order, LazyRun(t, ops))
  {
    SchemaOf(EntriesRun(t, ops, again)) + WideRows(Held(LazyRun(t, ops).missing, LazyRun(t, ops).rows), order)
  }

  /** `order` names every row of a table, and none is longer than the table is wide. */
  predicate Lists(order: seq<RowID>, t: Tab) {
    && (forall i :: 0 <= i < |order| ==> order[i] in t.rows && |t.rows[order[i]]| <= |t.missing|)
    && (forall id :: id in t.rows ==> id in order)
  }

  lemma {:induction false} LazyRunAppend(t: Tab, ops: seq<Op>, more: seq<Op>)
    ensures LazyRun(t, ops + more) == LazyRun(LazyRun(t, ops), more)
  {
    hide Lazy;
    if more == [] {
      assert ops + more == ops;
    } else {
      LazyRunAppend(t, ops, more[..|more| - 1]);
      assert (ops + more)[..|ops + more| - 1] == ops + more[..|more| - 1];
    }
  }

  ghost function ReadHeld(h: Held): map<RowID, seq<Value>>
    requires ShortHeld(h)
  {
    map id | id in h.rows :: Widen(h.missing, h.rows[id])
  }

  lemma AlikeReads(g: Held, h: Held)
    requires Alike(g, h)
    ensures ShortHeld(g) && ShortHeld(h) && g.missing == h.missing && ReadHeld(g) == ReadHeld(h)
  {}

  /** Recovering a table from a checkpoint's frame and everything logged after it, and recovering it from
      its whole history, start from the table as it was created and give the same columns and the same
      rows to every reader, which are those of the running table. The defaults of ADD COLUMN may evaluate
      to anything in either replay. */
  lemma CheckpointChangesNothing(t: Tab, ops: seq<Op>, order: seq<RowID>, more: seq<Op>,
                                 first: seq<Value>, again: seq<Value>, whole: seq<Value>)
    requires t.rows == map[] && |first| == |ops| && |again| == |more| && |whole| == |ops + more|
    requires Lists(order, LazyRun(t, ops))
    ensures var created, l := Held(t.missing, map[]), LazyRun(t, ops + more);
            var g := ReplayAll(created, Frame(t, ops, first, order) + EntriesRun(LazyRun(t, ops), more, again));
            var h := ReplayAll(created, EntriesRun(t, ops + more, whole));
            && Short(l) && ShortHeld(g) && ShortHeld(h)
            && g.missing == h.missing == l.missing && ReadHeld(g) == ReadHeld(h) == Read(l)
  {
    hide ReplayAll, WideRows, LazyRun, EntriesRun, SchemaOf, Alike;
    var c := LazyRun(t, ops);
    var created, held := Held(t.missing, map[]), Held(c.missing, c.rows);
    var schema, wide, later := SchemaOf(EntriesRun(t, ops, first)), WideRows(held, order), EntriesRun(c, more, again);
    SchemaReplays(t, ops, first);
    ReplayAppend(created, schema, wide);
    ReplayAppend(created, schema + wide, later);
    assert schema + wide + later == Frame(t, ops, first, order) + later;
    CheckpointAlike(held, order);
    AlikeRun(ReplayAll(created, schema + wide), c, more, again);
    LazyRunAppend(t, ops, more);
    HistoryReplays(t, ops + more, whole);
    AlikeReads(ReplayAll(created, schema + wide + later), Held(LazyRun(t, ops + more).missing, LazyRun(t, ops + more).rows));
  }

  // ---- the table's columns as an object ----

  datatype ColumnError = DuplicateColumn | NoSuchColumn

  /** The columns of a table, with what ADD COLUMN may bring along: a check and a foreign key. */
  class ColumnList<Check, Key> {
    var names: seq<bytes>
    var missing: seq<Value>
    var byName: map<bytes, nat>
    var checks: seq<Check>
    var foreignKeys: seq<Key>

    /** The index finds every column under its name, and nothing else. */
    ghost predicate Valid()
      reads this
    {
      && |names| == |missing|
      && (forall i :: 0 <= i < |names| ==> names[i] in byName && byName[names[i]] == i)
      && (forall n :: n in byName ==> byName[n] < |names| && names[byName[n]] == n)
    }

    constructor ()
      ensures Valid() && names == [] && missing == [] && checks == [] && foreignKeys == []
    {
      names, missing, byName, checks, foreignKeys := [], [], map[], [], [];
    }

    /** A stored row at the table's current width. */
    method AtWidth(row: seq<Value>) returns (out: seq<Value>)
      requires |row| <= |missing|
      ensures out == Widen(missing, row)
    {
      if |row| == |missing| { return row; }
      out := row;
      for i := |row| to |missing|
        invariant out == row + missing[|row|..i]
      {
        out := out + [missing[i]];
      }
    }

    /** Appends a column, its check and its foreign key, unless its name is taken, which is an error or,
        with IF NOT EXISTS, nothing. */
    method AddColumn(name: bytes, v: Value, check: Option<Check>, fk: Option<Key>, ifNotExists: bool) returns (r: Result<(), ColumnError>)
      requires Valid()
      modifies this
      ensures Valid()
      ensures r == if name in old(names) && !ifNotExists then Err(DuplicateColumn) else Ok(())
      ensures name in old(names) ==> names == old(names) && missing == old(missing) && checks == old(checks) && foreignKeys == old(foreignKeys)
      ensures name !in old(names) ==>
                && names == old(names) + [name] && missing == old(missing) + [v]
                && checks == old(checks) + (match check case Some(c) => [c] case None => [])
                && foreignKeys == old(foreignKeys) + (match fk case Some(k) => [k] case None => [])
    {
      if name in byName {
        if ifNotExists { return Ok(()); }
        return Err(DuplicateColumn);
      }
      names, missing := names + [name], missing + [v];
      byName := byName[name := |names| - 1];
      if check.Some? { checks := checks + [check.value]; }
      if fk.Some? { foreignKeys := foreignKeys + [fk.value]; }
      return Ok(());
    }

    /** Recovery fixes a column's missing value; an ordinal the table lacks is an error. */
    method SetMissing(i: int, v: Value) returns (r: Result<(), ColumnError>)
      requires Valid()
      modifies this
      ensures Valid() && names == old(names) && checks == old(checks) && foreignKeys == old(foreignKeys)
      ensures r.Ok? <==> 0 <= i < |old(missing)|
      ensures missing == if r.Ok? then old(missing)[i := v] else old(missing)
    {
      if i < 0 || i >= |missing| { return Err(NoSuchColumn); }
      missing := missing[i := v];
      return Ok(());
    }
  }
}
