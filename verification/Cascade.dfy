/** DELETE through foreign keys: cascades over any graph of references, cyclic ones included. */
module Cascade {
  import opened Values
  import opened Operators

  type TableId = nat

  /** A row version, named by its table and its place in it. */
  datatype Node = Node(table: TableId, id: nat)

  datatype Action = NoAction | Restrict | Cascades | SetNull | SetDefault

  datatype ForeignKey = ForeignKey(child: TableId, columns: seq<nat>, parent: TableId, parentCols: seq<nat>, onDelete: Action)

  datatype Failure = StillReferenced | WriteConflict | Dangling | ConditionFailed

  /** MATCH SIMPLE: a reference with a NULL column points nowhere. */
  predicate Specified(fk: ForeignKey, child: Tuple) {
    forall c :: 0 <= c < |fk.columns| ==> !IsNull(Col(child, fk.columns[c]))
  }

  predicate Points(same: (Value, Value) -> bool, fk: ForeignKey, child: Tuple, parent: Tuple) {
    && |fk.columns| == |fk.parentCols| && Specified(fk, child)
    && (forall c :: 0 <= c < |fk.columns| ==> same(Col(child, fk.columns[c]), Col(parent, fk.parentCols[c])))
  }

  /** The rows a transaction sees. Deleting only ever removes from `alive`. */
  class Store {
    const same: (Value, Value) -> bool
    const rows: map<Node, Tuple>
    /** Each table's versions in write order, its incoming and its own foreign keys. */
    const order: map<TableId, seq<Node>>
    const referencedBy: map<TableId, seq<ForeignKey>>
    const foreignKeys: map<TableId, seq<ForeignKey>>
    /** Versions another transaction has a live deletion on. */
    const busy: set<Node>
    var alive: set<Node>

    constructor (same: (Value, Value) -> bool, rows: map<Node, Tuple>, order: map<TableId, seq<Node>>,
                 referencedBy: map<TableId, seq<ForeignKey>>, foreignKeys: map<TableId, seq<ForeignKey>>,
                 busy: set<Node>, alive: set<Node>)
      ensures this.same == same && this.rows == rows && this.order == order && this.foreignKeys == foreignKeys
      ensures this.referencedBy == referencedBy && this.busy == busy && this.alive == alive
    {
      this.same, this.rows, this.order, this.foreignKeys := same, rows, order, foreignKeys;
      this.referencedBy, this.busy, this.alive := referencedBy, busy, alive;
    }

    function Incoming(t: TableId): seq<ForeignKey> { if t in referencedBy then referencedBy[t] else [] }

    function Outgoing(t: TableId): seq<ForeignKey> { if t in foreignKeys then foreignKeys[t] else [] }

    function Versions(t: TableId): seq<Node> { if t in order then order[t] else [] }

    ghost predicate Valid()
      reads this
    {
      && alive <= rows.Keys
      && (forall n :: n in alive ==> n in Versions(n.table))
      && (forall t, n :: n in Versions(t) ==> n in rows && n.table == t)
      && (forall t :: Distinct(Versions(t)))
      && (forall t, f :: f in Incoming(t) ==> f.parent == t && f in Outgoing(f.child))
      && (forall t, f :: f in Outgoing(t) ==> f.child == t && f in Incoming(f.parent))
    }

    /** Some foreign key makes row `c` a child of this row of table `t`. */
    ghost predicate ChildOf(c: Node, t: TableId, row: Tuple) {
      c in rows && exists f :: f in Incoming(t) && f.child == c.table && Points(same, f, rows[c], row)
    }

    ghost predicate Under(c: Node, d: Node) { d in rows && ChildOf(c, d.table, rows[d]) }

    /** `s` holds every live child of its members. */
    ghost predicate Closed(s: set<Node>, live: set<Node>) {
      forall d, c :: d in s && c in live && Under(c, d) ==> c in s
    }

    /** Every live row's references find a live parent. */
    ghost predicate Consistent(live: set<Node>) {
      forall c, f :: c in live && Refers(c, f) ==> Anchored(c, f, live)
    }

    ghost predicate Refers(c: Node, f: ForeignKey) {
      c in rows && f in Outgoing(c.table) && Specified(f, rows[c])
    }

    ghost predicate Anchored(c: Node, f: ForeignKey, live: set<Node>) {
      c in rows && exists p :: p in live && p in rows && p.table == f.parent && Points(same, f, rows[c], rows[p])
    }

    /** No action on deletion rewrites a row. */
    ghost predicate NoRewrites() {
      forall t, f :: f in Incoming(t) ==> f.onDelete != SetNull && f.onDelete != SetDefault
    }

    /** This foreign key makes `c` point at `d`. */
    ghost predicate Link(f: ForeignKey, c: Node, d: Node) {
      c in rows && d in rows && f in Incoming(d.table) && f.child == c.table && Points(same, f, rows[c], rows[d])
    }

    /** The first of its table's incoming foreign keys through which `c` points at `d`. */
    ghost predicate FirstLink(f: ForeignKey, c: Node, d: Node) {
      Link(f, c, d) && exists q :: 0 <= q < |Incoming(d.table)| && Incoming(d.table)[q] == f && NoEarlierLink(c, d, q)
    }

    ghost predicate NoEarlierLink(c: Node, d: Node, q: nat)
      requires q <= |Incoming(d.table)|
    {
      forall p :: 0 <= p < q ==> !Link(Incoming(d.table)[p], c, d)
    }

    ghost predicate Hit(c: Node, f: ForeignKey, row: Tuple)
      reads this
    {
      c in alive && c in rows && f.child == c.table && Points(same, f, rows[c], row)
    }

    lemma HitIs(c: Node, f: ForeignKey, row: Tuple)
      requires c in alive && c in rows && f.child == c.table && Points(same, f, rows[c], row)
      ensures Hit(c, f, row)
    {}

    /** The live rows of one referencing table that point at a row. */
    method Matching(f: ForeignKey, row: Tuple) returns (hits: seq<Node>)
      requires Valid()
      ensures forall c :: c in hits <==> Hit(c, f, row)
    {
      hits := [];
      var vs := Versions(f.child);
      for v := 0 to |vs|
        invariant forall c :: c in hits <==> c in vs[..v] && Hit(c, f, row)
      {
        assert vs[..v + 1] == vs[..v] + [vs[v]];
        if vs[v] in alive && Points(same, f, rows[vs[v]], row) { hits := hits + [vs[v]]; }
      }
      assert vs[..|vs|] == vs;
    }

    /** A live child that no incoming foreign key before the first that is `f` finds. */
    ghost predicate FirstHit(c: Node, f: ForeignKey, t: TableId, row: Tuple)
      reads this
    {
      exists q :: 0 <= q < |Incoming(t)| && Incoming(t)[q] == f && forall p :: 0 <= p < q ==> !Hit(c, Incoming(t)[p], row)
    }

    /** A live row is in some group if and only if in every column of some key it has, not NULL, what the
        paired column of `row` has; and it is in none but such keys' groups. */
    ghost predicate Grouped(t: TableId, row: Tuple, groups: seq<(ForeignKey, seq<Node>)>)
      requires alive <= rows.Keys
      reads this
    {
      && (forall g, c :: 0 <= g < |groups| && c in groups[g].1 ==>
            var f := groups[g].0;
            && c in alive && c.table == f.child
            && (forall k :: 0 <= k < |f.columns| ==> k < |f.parentCols| && Col(rows[c], f.columns[k]).k != KindNull && same(Col(rows[c], f.columns[k]), Col(row, f.parentCols[k]))))
      && (forall c, f :: c in alive && f in Incoming(t) && f.child == c.table && (forall g :: 0 <= g < |groups| ==> c !in groups[g].1) ==>
            |f.columns| != |f.parentCols| || exists k :: 0 <= k < |f.columns| && (Col(rows[c], f.columns[k]).k == KindNull || !same(Col(rows[c], f.columns[k]), Col(row, f.parentCols[k]))))
    }

    /** The live children of a row, one group per foreign key that finds any, in the order of the keys. */
    method ChildrenOf(t: TableId, row: Tuple) returns (groups: seq<(ForeignKey, seq<Node>)>)
      requires Valid()
      ensures forall g :: 0 <= g < |groups| ==> groups[g].0 in Incoming(t) && groups[g].0.parent == t && groups[g].1 != []
      ensures forall g, c :: 0 <= g < |groups| && c in groups[g].1 ==> Hit(c, groups[g].0, row)
      ensures forall g, c :: 0 <= g < |groups| && c in groups[g].1 ==> FirstHit(c, groups[g].0, t, row) || InGroups(groups[..g], c)
      ensures forall c :: c in alive && ChildOf(c, t, row) ==> InGroups(groups, c)
      ensures Grouped(t, row, groups)
    {
      hide Points, Hit, FirstHit, InGroups, ChildOf, Grouped;
      groups := [];
      var refs := Incoming(t);
      for r := 0 to |refs|
        invariant forall g :: 0 <= g < |groups| ==> groups[g].0 in refs && groups[g].1 != []
        invariant forall g, c :: 0 <= g < |groups| && c in groups[g].1 ==> Hit(c, groups[g].0, row)
        invariant forall g, c :: 0 <= g < |groups| && c in groups[g].1 ==> FirstHit(c, groups[g].0, t, row) || InGroups(groups[..g], c)
        invariant forall q, c :: 0 <= q < r && Hit(c, refs[q], row) ==> InGroups(groups, c)
      {
        var hits := Matching(refs[r], row);
        if hits != [] {
          MoreGroups(groups, (refs[r], hits));
          forall c | c in hits ensures FirstHit(c, refs[r], t, row) || InGroups(groups, c) { FirstOrBefore(c, t, row, r, groups); }
          ghost var before := groups;
          groups := groups + [(refs[r], hits)];
          assert forall g :: 0 <= g <= |before| ==> groups[..g] == before[..g];
          assert before[..|before|] == before;
        }
      }
      ListsAll(t, row, groups);
      GroupsExact(t, row, groups);
    }

    lemma ListsAll(t: TableId, row: Tuple, groups: seq<(ForeignKey, seq<Node>)>)
      requires forall q, c :: 0 <= q < |Incoming(t)| && Hit(c, Incoming(t)[q], row) ==> InGroups(groups, c)
      ensures forall c :: c in alive && ChildOf(c, t, row) ==> InGroups(groups, c)
    {
      hide Points, Hit, InGroups;
      forall c | c in alive && ChildOf(c, t, row) ensures InGroups(groups, c) {
        var f :| f in Incoming(t) && f.child == c.table && Points(same, f, rows[c], row);
        var q :| 0 <= q < |Incoming(t)| && Incoming(t)[q] == f;
        HitIs(c, Incoming(t)[q], row);
      }
    }

    /** The groups, column by column. */
    lemma GroupsExact(t: TableId, row: Tuple, groups: seq<(ForeignKey, seq<Node>)>)
      requires Valid()
      requires forall g, c :: 0 <= g < |groups| && c in groups[g].1 ==> Hit(c, groups[g].0, row)
      requires forall c :: c in alive && ChildOf(c, t, row) ==> InGroups(groups, c)
      ensures Grouped(t, row, groups)
    {
      forall c, f | c in alive && f in Incoming(t) && f.child == c.table && Points(same, f, rows[c], row)
        ensures exists g :: 0 <= g < |groups| && c in groups[g].1
      {
        assert ChildOf(c, t, row);
      }
    }

    /** A child that no earlier key has put in a group is first found by this one. */
    lemma FirstOrBefore(c: Node, t: TableId, row: Tuple, r: nat, groups: seq<(ForeignKey, seq<Node>)>)
      requires r < |Incoming(t)| && forall q :: 0 <= q < r && Hit(c, Incoming(t)[q], row) ==> InGroups(groups, c)
      ensures FirstHit(c, Incoming(t)[r], t, row) || InGroups(groups, c)
    {
      hide Hit, InGroups;
    }

    /** Deleting what this transaction already deleted succeeds again. */
    method Remove(n: Node) returns (r: Result<(), Failure>)
      requires Valid()
      modifies this
      ensures Valid() && r == (if n in busy then Err(WriteConflict) else Ok(()))
      ensures alive == if r.Ok? then old(alive) - {n} else old(alive)
    {
      if n in busy { return Err(WriteConflict); }
      alive := alive - {n};
      return Ok(());
    }

    /** Whether the referenced table holds a row matching the child's key. */
    method ParentHasKey(c: Node, f: ForeignKey) returns (b: bool)
      requires Valid() && c in rows && Specified(f, rows[c])
      ensures b <==> Anchored(c, f, alive)
      ensures b <==> exists p :: p in alive && p.table == f.parent && |f.columns| == |f.parentCols|
                       && (forall k :: 0 <= k < |f.columns| ==> Col(rows[c], f.columns[k]).k != KindNull && same(Col(rows[c], f.columns[k]), Col(rows[p], f.parentCols[k])))
    {
      var vs := Versions(f.parent);
      for v := 0 to |vs|
        invariant forall p :: p in vs[..v] && p in alive && p in rows ==> !Points(same, f, rows[c], rows[p])
      {
        assert vs[..v + 1] == vs[..v] + [vs[v]];
        if vs[v] in alive && Points(same, f, rows[c], rows[vs[v]]) { return true; }
      }
      assert vs[..|vs|] == vs;
      return false;
    }

    /** Verifies one row against one foreign key, column by column. */
    method CheckReference(c: Node, f: ForeignKey) returns (r: Result<(), Failure>)
      requires Valid() && c in rows && f in Outgoing(c.table)
      ensures r == if Refers(c, f) && !Anchored(c, f, alive) then Err(Dangling) else Ok(())
      ensures r.Ok? ==> || (exists k :: 0 <= k < |f.columns| && Col(rows[c], f.columns[k]).k == KindNull)
                        || (exists p :: p in alive && p.table == f.parent && |f.columns| == |f.parentCols|
                              && forall k :: 0 <= k < |f.columns| ==> same(Col(rows[c], f.columns[k]), Col(rows[p], f.parentCols[k])))
      ensures r.Err? ==> && (forall k :: 0 <= k < |f.columns| ==> Col(rows[c], f.columns[k]).k != KindNull)
                         && (forall p :: p in alive && p.table == f.parent && |f.columns| == |f.parentCols| ==>
                               exists k :: 0 <= k < |f.columns| && !same(Col(rows[c], f.columns[k]), Col(rows[p], f.parentCols[k])))
    {
      hide Anchored, Points, Col;
      if !Specified(f, rows[c]) { return Ok(()); }
      var found := ParentHasKey(c, f);
      return if found then Ok(()) else Err(Dangling);
    }

    /** Revalidates every live row of a table against every foreign key of the table. */
    method CheckForeignKeys(t: TableId) returns (r: Result<(), Failure>)
      requires Valid()
      ensures r.Ok? <==> forall c, f :: c in alive && c.table == t && Refers(c, f) ==> Anchored(c, f, alive)
      ensures r.Ok? ==> forall c, f :: c in alive && c.table == t && f in Outgoing(t) ==>
                || (exists k :: 0 <= k < |f.columns| && Col(rows[c], f.columns[k]).k == KindNull)
                || (exists p :: p in alive && p.table == f.parent && |f.columns| == |f.parentCols|
                      && forall k :: 0 <= k < |f.columns| ==> same(Col(rows[c], f.columns[k]), Col(rows[p], f.parentCols[k])))
      ensures r.Err? ==> exists c, f :: (
                && c in alive && c.table == t && f in Outgoing(t)
                && (forall k :: 0 <= k < |f.columns| ==> Col(rows[c], f.columns[k]).k != KindNull)
                && (forall p :: p in alive && p.table == f.parent && |f.columns| == |f.parentCols| ==>
                      exists k :: 0 <= k < |f.columns| && !same(Col(rows[c], f.columns[k]), Col(rows[p], f.parentCols[k]))))
    {
      hide Anchored, Specified, Col, Valid;
      LiveInOrder(t);
      var vs, fks := Versions(t), Outgoing(t);
      for v := 0 to |vs|
        invariant forall i, f :: 0 <= i < v && vs[i] in alive && Refers(vs[i], f) ==> Anchored(vs[i], f, alive)
      {
        if vs[v] in alive {
          for k := 0 to |fks|
            invariant forall j :: 0 <= j < k && Refers(vs[v], fks[j]) ==> Anchored(vs[v], fks[j], alive)
          {
            r := CheckReference(vs[v], fks[k]);
            if r.Err? { return r; }
          }
        }
      }
      AllAnchored(t);
      return Ok(());
    }

    lemma LiveInOrder(t: TableId)
      requires Valid()
      ensures forall c :: c in alive && c.table == t ==> c in Versions(t)
      ensures forall c :: c in Versions(t) ==> c in rows && c.table == t
    {}

    lemma AllAnchored(t: TableId)
      requires Valid() && forall c, f :: c in alive && c.table == t && Refers(c, f) ==> Anchored(c, f, alive)
      ensures forall c, f :: c in alive && c.table == t && f in Outgoing(t) ==>
                || (exists k :: 0 <= k < |f.columns| && Col(rows[c], f.columns[k]).k == KindNull)
                || (exists p :: p in alive && p.table == f.parent && |f.columns| == |f.parentCols|
                      && forall k :: 0 <= k < |f.columns| ==> same(Col(rows[c], f.columns[k]), Col(rows[p], f.parentCols[k])))
    {
      hide Col;
      forall c, f | c in alive && c.table == t && f in Outgoing(t) && Specified(f, rows[c])
        ensures exists p :: p in alive && p.table == f.parent && Points(same, f, rows[c], rows[p])
      {
        assert Refers(c, f);
      }
    }

    /** The live rows that a set of rows is referenced by, directly or through others. */
    ghost function Closure(s: set<Node>, live: set<Node>): set<Node>
      decreases |live - s|
    {
      var next := s + set c | c in live && exists d :: d in s && Under(c, d);
      if next == s then s
      else
        SmallerDifference(live, s, live, next);
        Closure(next, live)
    }

    lemma {:induction false} ClosureIsClosed(s: set<Node>, live: set<Node>)
      ensures s <= Closure(s, live) && Closed(Closure(s, live), live)
      ensures s <= live ==> Closure(s, live) <= live
      decreases |live - s|
    {
      hide Under;
      var next := s + set c | c in live && exists d :: d in s && Under(c, d);
      if next != s {
        SmallerDifference(live, s, live, next);
        ClosureIsClosed(next, live);
      }
    }

    lemma {:induction false} ClosureIsLeast(s: set<Node>, live: set<Node>, bound: set<Node>)
      requires s <= bound && Closed(bound, live)
      ensures Closure(s, live) <= bound
      decreases |live - s|
    {
      hide Under;
      var next := s + set c | c in live && exists d :: d in s && Under(c, d);
      if next != s {
        SmallerDifference(live, s, live, next);
        ClosureIsLeast(next, live, bound);
      }
    }
  }

  predicate Distinct(s: seq<Node>) { forall i, j :: 0 <= i < j < |s| ==> s[i] != s[j] }

  predicate InGroups(groups: seq<(ForeignKey, seq<Node>)>, c: Node) {
    exists g :: 0 <= g < |groups| && c in groups[g].1
  }

  lemma MoreGroups(groups: seq<(ForeignKey, seq<Node>)>, more: (ForeignKey, seq<Node>))
    ensures forall c :: InGroups(groups + [more], c) <==> InGroups(groups, c) || c in more.1
  {
    var all := groups + [more];
    assert all[|groups|] == more && forall g :: 0 <= g < |groups| ==> all[g] == groups[g];
    forall c | InGroups(groups, c) ensures InGroups(all, c) {
      var g :| 0 <= g < |groups| && c in groups[g].1;
      assert c in all[g].1;
    }
  }

  lemma SmallerDifference(a: set<Node>, s: set<Node>, b: set<Node>, t: set<Node>)
    requires b <= a && s <= t && (exists n :: n in a && n !in s && n in t)
    ensures |b - t| < |a - s|
  {
    var n :| n in a && n !in s && n in t;
    assert b - t <= (a - s) - {n};
    SubsetSize(b - t, (a - s) - {n});
  }

  lemma {:induction false} SubsetSize(a: set<Node>, b: set<Node>)
    requires a <= b
    ensures |a| <= |b|
  {
    if a != {} {
      var x :| x in a;
      SubsetSize(a - {x}, b - {x});
    }
  }

  /** The versions a statement has already acted on while removing one row. */
  class Seen {
    var nodes: set<Node>

    constructor ()
      ensures nodes == {}
    {
      nodes := {};
    }
  }

  /** The tables a statement wrote to through referential actions. */
  class Touched {
    var tables: set<TableId>

    constructor ()
      ensures tables == {}
    {
      tables := {};
    }
  }

  /** A cascade that went from `live` and `seen` to `live'` and `seen'` removed exactly the versions it
      newly acted on, and what still points at one of them was being acted on already. */
  ghost predicate Removed(db: Store, live: set<Node>, live': set<Node>, seen: set<Node>, seen': set<Node>) {
    && seen <= seen' && seen' - seen <= live && live' == live - (seen' - seen)
    && forall d, c :: d in seen' - seen && c in live' && db.Under(c, d) ==> c in seen
  }

  /** Why removing rows of `bound` and what is under them failed. */
  ghost predicate Blames(db: Store, live: set<Node>, bound: set<Node>, e: Failure) {
    match e
    case StillReferenced => exists f, c, d :: c in live && c in bound && d in bound && db.FirstLink(f, c, d) && f.onDelete != Cascades
    case WriteConflict => exists n :: n in bound && n in db.busy
    case Dangling => false
    case ConditionFailed => false
  }

  /** The tables of the versions newly acted on are known to have been written to. */
  predicate Noted(seen: set<Node>, seen': set<Node>, tables: set<TableId>) {
    forall n :: n in seen' - seen ==> n.table in tables
  }

  /** A cascade comes to `c` from a row of `bound`: the first key through which it points there cascades. */
  ghost predicate CascadedFrom(db: Store, bound: set<Node>, c: Node) {
    exists f, d :: d in bound && db.FirstLink(f, c, d) && f.onDelete == Cascades
  }

  ghost predicate Reached(db: Store, bound: set<Node>, seen: set<Node>, seen': set<Node>) {
    forall c :: c in seen' - seen ==> CascadedFrom(db, bound, c)
  }

  /** One more child dealt with: itself, and what its own cascade removed. */
  lemma RemovedOneMore(db: Store, live: set<Node>, live1: set<Node>, live2: set<Node>,
                       seen: set<Node>, seen1: set<Node>, seen2: set<Node>, child: Node)
    requires Removed(db, live, live1, seen, seen1) && child in live && child !in seen1
    requires Removed(db, live1, live2, seen1 + {child}, seen2)
    requires forall c :: c in live2 && db.Under(c, child) ==> c in seen1 + {child}
    ensures Removed(db, live, live2 - {child}, seen, seen2)
  {}

  lemma StillClosed(db: Store, bound: set<Node>, live: set<Node>, live': set<Node>)
    requires db.Closed(bound, live) && live' <= live
    ensures db.Closed(bound, live')
  {}

  /** Deals with one referencing row: a cascade removes what references it, then the row itself;
      otherwise the delete is refused. */
  method ApplyRefAction(db: Store, f: ForeignKey, child: Node, seen: Seen, wrote: Touched, ghost bound: set<Node>, ghost parent: Node)
    returns (r: Result<(), Failure>, ghost left: set<Node>)
    requires db.Valid() && db.NoRewrites() && db.FirstLink(f, child, parent)
    requires child in bound && parent in bound && db.Closed(bound, db.alive)
    modifies db, seen, wrote
    decreases |db.alive - seen.nodes|, 4
    ensures db.Valid() && db.alive <= old(db.alive) && old(seen.nodes) <= seen.nodes
    ensures seen.nodes - old(seen.nodes) <= bound && old(db.alive) - db.alive <= bound
    ensures r.Err? ==> Blames(db, old(db.alive) + {child}, bound, r.error)
    ensures r.Ok? ==> f.onDelete == Cascades && Removed(db, old(db.alive), left, old(seen.nodes), seen.nodes)
    ensures r.Ok? ==> db.alive == left - {child} && forall c :: c in left && db.Under(c, child) ==> c in old(seen.nodes)
    ensures old(wrote.tables) <= wrote.tables && (r.Ok? ==> Noted(old(seen.nodes), seen.nodes, wrote.tables))
    ensures r.Ok? ==> Reached(db, bound, old(seen.nodes), seen.nodes)
  {
    left := db.alive;
    if f.onDelete != Cascades { return Err(StillReferenced), left; }
    r := ApplyRefActions(db, child.table, db.rows[child], seen, wrote, bound, child);
    left := db.alive;
    if r.Err? {
      BlamesMore(db, old(db.alive), old(db.alive) + {child}, bound, r.error);
      return r, left;
    }
    r := db.Remove(child);
  }

  lemma BlamesMore(db: Store, live: set<Node>, live': set<Node>, bound: set<Node>, e: Failure)
    requires Blames(db, live, bound, e) && live <= live'
    ensures Blames(db, live', bound, e)
  {
    hide Store.Link;
  }

  /** Everything so far stayed within `bound`. */
  predicate Within(bound: set<Node>, live: set<Node>, live': set<Node>, seen: set<Node>, seen': set<Node>) {
    live' <= live && seen <= seen' && seen' - seen <= bound && live - live' <= bound
  }

  /** Deals with one child of a row unless it has been already. `live` and `seen0` are how things stood
      when the row's children were listed. */
  method ApplyOnce(db: Store, f: ForeignKey, child: Node, seen: Seen, wrote: Touched, ghost bound: set<Node>,
                   ghost live: set<Node>, ghost seen0: set<Node>, ghost parent: Node)
    returns (r: Result<(), Failure>)
    requires db.Valid() && db.NoRewrites() && f.child == child.table && child in db.rows
    requires child in seen.nodes || db.FirstLink(f, child, parent)
    requires child in bound && parent in bound && child in live && db.Closed(bound, live)
    requires Removed(db, live, db.alive, seen0, seen.nodes) && db.alive <= live && seen0 <= seen.nodes
    modifies db, seen, wrote
    decreases |live - seen0|, 1
    ensures db.Valid() && db.alive <= old(db.alive) && old(seen.nodes) <= seen.nodes
    ensures seen.nodes - old(seen.nodes) <= bound && old(db.alive) - db.alive <= bound
    ensures r.Err? ==> Blames(db, live, bound, r.error)
    ensures r.Ok? ==> child in seen.nodes && Removed(db, live, db.alive, seen0, seen.nodes)
    ensures old(wrote.tables) <= wrote.tables && (r.Ok? ==> Noted(old(seen.nodes), seen.nodes, wrote.tables))
    ensures r.Ok? ==> Reached(db, bound, old(seen.nodes), seen.nodes)
  {
    hide Removed, Blames, Store.FirstLink, Store.Under, Store.Closed, Store.Valid, Store.NoRewrites, CascadedFrom;
    if child in seen.nodes { return Ok(()); }
    ghost var live1, seen1 := db.alive, seen.nodes;
    seen.nodes := seen.nodes + {child};
    StillClosed(db, bound, live, db.alive);
    SmallerDifference(live, seen0, db.alive, seen.nodes);
    ghost var left;
    r, left := ApplyRefAction(db, f, child, seen, wrote, bound, parent);
    if r.Err? {
      BlamesMore(db, live1 + {child}, live, bound, r.error);
      return r;
    }
    RemovedOneMore(db, live, live1, left, seen0, seen1, seen.nodes, child);
    CascadesTo(db, f, child, parent, bound);
    wrote.tables := wrote.tables + {f.child};
  }

  lemma CascadesTo(db: Store, f: ForeignKey, c: Node, d: Node, bound: set<Node>)
    requires db.FirstLink(f, c, d) && d in bound && f.onDelete == Cascades
    ensures CascadedFrom(db, bound, c)
  {
    hide Store.FirstLink;
  }

  /** Deals with the children one foreign key found. */
  method ApplyGroup(db: Store, f: ForeignKey, children: seq<Node>, seen: Seen, wrote: Touched, ghost bound: set<Node>,
                    ghost live: set<Node>, ghost seen0: set<Node>, ghost parent: Node)
    returns (r: Result<(), Failure>)
    requires db.Valid() && db.NoRewrites() && parent in bound && db.Closed(bound, live)
    requires forall k :: 0 <= k < |children| ==> children[k] in seen.nodes || db.FirstLink(f, children[k], parent)
    requires forall k :: 0 <= k < |children| ==> children[k].table == f.child && children[k] in db.rows && children[k] in bound && children[k] in live
    requires Removed(db, live, db.alive, seen0, seen.nodes) && Within(bound, live, db.alive, seen0, seen.nodes)
    modifies db, seen, wrote
    decreases |live - seen0|, 2
    ensures db.Valid() && Within(bound, live, db.alive, seen0, seen.nodes) && old(seen.nodes) <= seen.nodes
    ensures r.Err? ==> Blames(db, live, bound, r.error)
    ensures r.Ok? ==> Removed(db, live, db.alive, seen0, seen.nodes) && forall k :: 0 <= k < |children| ==> children[k] in seen.nodes
    ensures old(wrote.tables) <= wrote.tables && (r.Ok? ==> Noted(old(seen.nodes), seen.nodes, wrote.tables))
    ensures r.Ok? ==> Reached(db, bound, old(seen.nodes), seen.nodes)
  {
    hide Removed, Blames, Store.FirstLink, Store.Under, Store.Closed, Store.NoRewrites, Store.Valid, CascadedFrom;
    for k := 0 to |children|
      invariant db.Valid() && Within(bound, live, db.alive, seen0, seen.nodes) && old(seen.nodes) <= seen.nodes
      invariant Removed(db, live, db.alive, seen0, seen.nodes)
      invariant forall i :: 0 <= i < k ==> children[i] in seen.nodes
      invariant old(wrote.tables) <= wrote.tables && Noted(old(seen.nodes), seen.nodes, wrote.tables)
      invariant Reached(db, bound, old(seen.nodes), seen.nodes)
    {
      r := ApplyOnce(db, f, children[k], seen, wrote, bound, live, seen0, parent);
      if r.Err? { return r; }
    }
    return Ok(());
  }

  /** Deals with the rows referencing a row, `parent`, that is about to go. `bound` is any closed set it is
      in: nothing outside is touched, and what a failure is blamed on lies inside. The recursion ends
      because every call acts on a live version not acted on before. */
  method ApplyRefActions(db: Store, t: TableId, row: Tuple, seen: Seen, wrote: Touched, ghost bound: set<Node>, ghost parent: Node)
    returns (r: Result<(), Failure>)
    requires db.Valid() && db.NoRewrites() && db.Closed(bound, db.alive)
    requires parent in bound && parent in db.rows && parent.table == t && db.rows[parent] == row
    modifies db, seen, wrote
    decreases |db.alive - seen.nodes|, 3
    ensures db.Valid() && Within(bound, old(db.alive), db.alive, old(seen.nodes), seen.nodes)
    ensures r.Err? ==> Blames(db, old(db.alive), bound, r.error)
    ensures r.Ok? ==> Removed(db, old(db.alive), db.alive, old(seen.nodes), seen.nodes)
    ensures r.Ok? ==> forall c :: c in db.alive && db.ChildOf(c, t, row) ==> c in old(seen.nodes)
    ensures old(wrote.tables) <= wrote.tables && (r.Ok? ==> Noted(old(seen.nodes), seen.nodes, wrote.tables))
    ensures r.Ok? ==> Reached(db, bound, old(seen.nodes), seen.nodes)
  {
    hide Removed, Blames, Points, InGroups, Store.ChildOf, Store.Under, Store.Closed, Store.NoRewrites, Store.Valid, Store.Hit,
         Store.Link, Store.FirstHit, Store.FirstLink, Store.Grouped, CascadedFrom;
    if db.Incoming(t) == [] {
      Unreferenced(db, t, row, db.alive, seen.nodes);
      return Ok(());
    }
    var groups := db.ChildrenOf(t, row);
    ghost var live0, seen0 := db.alive, seen.nodes;
    GroupsLinked(db, t, row, groups, bound, parent);
    Unmoved(db, live0, seen0);
    for g := 0 to |groups|
      invariant db.Valid() && Within(bound, live0, db.alive, seen0, seen.nodes)
      invariant Removed(db, live0, db.alive, seen0, seen.nodes)
      invariant forall h, c :: 0 <= h < g && c in groups[h].1 ==> c in seen.nodes
      invariant old(wrote.tables) <= wrote.tables && Noted(old(seen.nodes), seen.nodes, wrote.tables)
      invariant Reached(db, bound, old(seen.nodes), seen.nodes)
    {
      EarlierSeen(groups, g, seen.nodes);
      r := ApplyGroup(db, groups[g].0, groups[g].1, seen, wrote, bound, live0, seen0, parent);
      if r.Err? { return r; }
    }
    ChildrenGone(db, t, row, groups, live0, db.alive, seen0, seen.nodes);
    return Ok(());
  }

  lemma EarlierSeen(groups: seq<(ForeignKey, seq<Node>)>, g: nat, seen: set<Node>)
    requires g < |groups| && forall h, c :: 0 <= h < g && c in groups[h].1 ==> c in seen
    ensures forall c :: InGroups(groups[..g], c) ==> c in seen
  {}

  /** Every child listed points at the row through its group's foreign key, which is the first to do so
      or comes after a group that lists it too, and is within the bound. */
  lemma GroupsLinked(db: Store, t: TableId, row: Tuple, groups: seq<(ForeignKey, seq<Node>)>, bound: set<Node>, parent: Node)
    requires db.Closed(bound, db.alive) && parent in bound && parent in db.rows && parent.table == t && db.rows[parent] == row
    requires forall g :: 0 <= g < |groups| ==> groups[g].0 in db.Incoming(t)
    requires forall g, c :: 0 <= g < |groups| && c in groups[g].1 ==> db.Hit(c, groups[g].0, row)
    requires forall g, c :: 0 <= g < |groups| && c in groups[g].1 ==> db.FirstHit(c, groups[g].0, t, row) || InGroups(groups[..g], c)
    ensures forall g, k :: 0 <= g < |groups| && 0 <= k < |groups[g].1| ==> var c := groups[g].1[k];
              && (db.FirstLink(groups[g].0, c, parent) || InGroups(groups[..g], c))
              && c.table == groups[g].0.child && c in db.rows && c in bound && c in db.alive
  {
    hide Points, InGroups, Store.FirstHit, Store.FirstLink;
    forall g, k | 0 <= g < |groups| && 0 <= k < |groups[g].1| ensures var c := groups[g].1[k];
              && (db.FirstLink(groups[g].0, c, parent) || InGroups(groups[..g], c))
              && c.table == groups[g].0.child && c in db.rows && c in bound && c in db.alive
    {
      var c := groups[g].1[k];
      assert c in groups[g].1 && db.Under(c, parent);
      if db.FirstHit(c, groups[g].0, t, row) { FirstHitLinks(db, c, groups[g].0, parent); }
    }
  }

  lemma FirstHitLinks(db: Store, c: Node, f: ForeignKey, d: Node)
    requires d in db.rows && db.Hit(c, f, db.rows[d]) && db.FirstHit(c, f, d.table, db.rows[d])
    ensures db.FirstLink(f, c, d)
  {
    hide Points;
    var refs := db.Incoming(d.table);
    var q :| 0 <= q < |refs| && refs[q] == f && forall p :: 0 <= p < q ==> !db.Hit(c, refs[p], db.rows[d]);
    forall p | 0 <= p < q ensures !db.Link(refs[p], c, d) { assert !db.Hit(c, refs[p], db.rows[d]); }
    assert db.NoEarlierLink(c, d, q);
  }

  lemma Unmoved(db: Store, live: set<Node>, seen: set<Node>)
    ensures Removed(db, live, live, seen, seen)
  {}

  lemma Unreferenced(db: Store, t: TableId, row: Tuple, live: set<Node>, seen: set<Node>)
    requires db.Incoming(t) == []
    ensures Removed(db, live, live, seen, seen) && forall c :: !db.ChildOf(c, t, row)
  {}

  lemma ChildrenGone(db: Store, t: TableId, row: Tuple, groups: seq<(ForeignKey, seq<Node>)>,
                     live: set<Node>, live': set<Node>, seen: set<Node>, seen': set<Node>)
    requires Removed(db, live, live', seen, seen')
    requires forall c :: c in live && db.ChildOf(c, t, row) ==> InGroups(groups, c)
    requires forall g, c :: 0 <= g < |groups| && c in groups[g].1 ==> c in seen'
    ensures forall c :: c in live' && db.ChildOf(c, t, row) ==> c in seen
  {
    hide Store.ChildOf;
  }

  // ---- the statement ----

  ghost function Matched(db: Store, target: TableId, where: Tuple -> Truth, live: set<Node>): set<Node> {
    set n | n in live && n.table == target && n in db.rows && where(db.rows[n]) == True
  }

  /** Nothing alive points at anything that is gone. */
  ghost predicate Detached(db: Store, live: set<Node>, live': set<Node>) {
    live' <= live && forall d, c :: d in live - live' && c in live' ==> !db.Under(c, d)
  }

  /** One matched row dealt with. */
  lemma DetachedOneMore(db: Store, live: set<Node>, live1: set<Node>, live2: set<Node>, seen: set<Node>, v: Node)
    requires Detached(db, live, live1) && Removed(db, live1, live2, {}, seen) && v in db.rows
    requires forall c :: c in live2 ==> !db.ChildOf(c, v.table, db.rows[v])
    ensures Detached(db, live, live2 - {v}) && live1 - live2 <= seen
  {
    hide Store.ChildOf;
  }

  /** Rows that lose nothing they point at stay consistent. */
  lemma DetachedConsistent(db: Store, live: set<Node>, live': set<Node>)
    requires db.Valid() && Detached(db, live, live') && db.Consistent(live)
    ensures db.Consistent(live')
  {
    forall c, f | c in live' && db.Refers(c, f) ensures db.Anchored(c, f, live') {
      assert db.Anchored(c, f, live);
      var p :| p in live && p in db.rows && p.table == f.parent && Points(db.same, f, db.rows[c], db.rows[p]);
      assert db.ChildOf(c, p.table, db.rows[p]);
      assert db.Under(c, p);
    }
  }

  /** What is gone is exactly the closure of the matched rows. */
  lemma DetachedClosure(db: Store, live: set<Node>, live': set<Node>, matched: set<Node>)
    requires Detached(db, live, live') && matched <= live - live' && live - live' <= db.Closure(matched, live)
    ensures live - live' == db.Closure(matched, live)
  {
    db.ClosureIsLeast(matched, live, live - live');
  }

  /** The live versions of a table, in write order. */
  method Scan(db: Store, t: TableId) returns (vs: seq<Node>)
    requires db.Valid()
    ensures Distinct(vs) && forall v :: v in vs <==> v in db.alive && v.table == t
  {
    vs := [];
    var all := db.Versions(t);
    for i := 0 to |all|
      invariant Distinct(vs) && forall v :: v in vs <==> v in all[..i] && v in db.alive
    {
      assert all[..i + 1] == all[..i] + [all[i]];
      if all[i] in db.alive { vs := vs + [all[i]]; }
    }
    assert all[..|all|] == all;
  }

  /** Removes one matched row and what references it. */
  method DeleteRow(db: Store, v: Node, wrote: Touched, ghost bound: set<Node>, ghost live: set<Node>) returns (r: Result<(), Failure>)
    requires db.Valid() && db.NoRewrites() && v in db.rows && v in bound
    requires db.Closed(bound, live) && Detached(db, live, db.alive) && live - db.alive <= bound
    modifies db, wrote
    ensures db.Valid() && db.alive <= old(db.alive) && live - db.alive <= bound
    ensures r.Err? ==> Blames(db, live, bound, r.error) && r.error != Dangling && r.error != ConditionFailed
    ensures r.Ok? ==> Detached(db, live, db.alive) && v !in db.alive
    ensures old(wrote.tables) <= wrote.tables && (r.Ok? ==> Noted(db.alive + {v}, old(db.alive), wrote.tables))
    ensures r.Ok? ==> Reached(db, bound, db.alive + {v}, old(db.alive))
  {
    hide Removed, Store.NoRewrites, Store.Valid, Store.ChildOf, Store.FirstLink, CascadedFrom;
    ghost var live1 := db.alive;
    StillClosed(db, bound, live, db.alive);
    var seen := new Seen();
    r := ApplyRefActions(db, v.table, db.rows[v], seen, wrote, bound, v);
    if r.Err? {
      BlamesMore(db, live1, live, bound, r.error);
      return r;
    }
    DetachedOneMore(db, live, live1, db.alive, seen.nodes, v);
    r := db.Remove(v);
  }

  /** The live rows of these tables have everything they refer to. */
  ghost predicate Sound(db: Store, tables: set<TableId>, live: set<Node>) {
    forall c, f :: c in live && c.table in tables && db.Refers(c, f) ==> db.Anchored(c, f, live)
  }

  lemma SoundOfConsistent(db: Store, tables: set<TableId>, live: set<Node>)
    ensures db.Consistent(live) ==> Sound(db, tables, live)
  {
    hide Store.Refers, Store.Anchored;
  }

  lemma SoundLess(db: Store, tables: set<TableId>, fewer: set<TableId>, live: set<Node>)
    requires Sound(db, tables, live) && fewer <= tables
    ensures Sound(db, fewer, live)
  {
    hide Store.Refers, Store.Anchored;
  }

  /** Revalidates every table a cascade wrote to except the statement's own. */
  method CheckTouched(db: Store, wrote: Touched, except': TableId) returns (r: Result<(), Failure>)
    requires db.Valid()
    ensures r == if Sound(db, wrote.tables - {except'}, db.alive) then Ok(()) else Err(Dangling)
  {
    hide Store.Refers, Store.Anchored, Store.Valid;
    ghost var done: set<TableId> := {};
    var todo := wrote.tables - {except'};
    while todo != {}
      invariant done + todo == wrote.tables - {except'} && Sound(db, done, db.alive)
    {
      var t :| t in todo;
      r := db.CheckForeignKeys(t);
      if r.Err? { return Err(Dangling); }
      todo, done := todo - {t}, done + {t};
    }
    return Ok(());
  }

  lemma NextMatched(db: Store, target: TableId, where: Tuple -> Truth, live: set<Node>, vs: seq<Node>, i: nat)
    requires i < |vs| && Distinct(vs) && vs[i] in live && vs[i].table == target && vs[i] in db.rows
    ensures vs[i] in Matched(db, target, where, live) <==> where(db.rows[vs[i]]) == True
    ensures vs[i] !in vs[..i] && vs[..i + 1] == vs[..i] + [vs[i]]
  {}

  lemma AllMatched(db: Store, target: TableId, where: Tuple -> Truth, live: set<Node>, vs: seq<Node>)
    requires forall v :: v in vs <==> v in live && v.table == target
    ensures vs[..|vs|] == vs && forall v :: v in Matched(db, target, where, live) ==> v in vs
  {}

  lemma NothingReached(db: Store, bound: set<Node>, matched: set<Node>)
    ensures Reached(db, bound, matched, db.alive - db.alive)
  {}

  lemma OneMoreDeleted(db: Store, bound: set<Node>, matched: set<Node>, live: set<Node>, before: set<Node>, after: set<Node>,
                       v: Node, target: TableId, noted: set<TableId>, noted': set<TableId>)
    requires v in matched && v.table == target && after <= before <= live && noted <= noted'
    requires Reached(db, bound, matched, live - before) && Reached(db, bound, after + {v}, before)
    requires Noted(after + {v}, before, noted') && forall n :: n in live - before ==> n.table == target || n.table in noted
    ensures Reached(db, bound, matched, live - after)
    ensures forall n :: n in live - after ==> n.table == target || n.table in noted'
  {
    hide CascadedFrom;
  }

  /** Deletes the matched rows one after the other, and counts them. */
  method DeleteMatched(db: Store, target: TableId, where: Tuple -> Truth, wrote: Touched, ghost matched: set<Node>) returns (r: Result<nat, Failure>)
    requires db.Valid() && db.NoRewrites() && matched == Matched(db, target, where, db.alive)
    modifies db, wrote
    ensures db.Valid() && db.alive <= old(db.alive) && old(db.alive) - db.alive <= db.Closure(matched, old(db.alive))
    ensures r.Ok? ==> r.value == |matched| && Detached(db, old(db.alive), db.alive) && matched <= old(db.alive) - db.alive
    ensures r.Ok? ==> Reached(db, db.Closure(matched, old(db.alive)), matched, old(db.alive) - db.alive)
    ensures r.Ok? ==> forall n :: n in old(db.alive) - db.alive ==> n.table == target || n.table in wrote.tables
    ensures r == Err(ConditionFailed) ==> exists v :: v in old(db.alive) && v.table == target && v in db.rows && where(db.rows[v]) == Raises
    ensures r.Err? && r.error != ConditionFailed ==> r.error != Dangling && Blames(db, old(db.alive), db.Closure(matched, old(db.alive)), r.error)
  {
    hide Store.NoRewrites, Store.Valid, Store.Closure, Store.Closed, Detached, Store.Under, Blames, Reached, Noted, Matched, Distinct;
    ghost var live, bound := db.alive, db.Closure(matched, db.alive);
    db.ClosureIsClosed(matched, live);
    NothingGone(db, live);
    NothingReached(db, bound, matched);
    var vs := Scan(db, target);
    InStore(db);
    var affected := 0;
    ghost var done: set<Node> := {};
    for i := 0 to |vs|
      invariant db.Valid() && db.alive <= live && live - db.alive <= bound && Detached(db, live, db.alive)
      invariant done * db.alive == {} && affected == |done|
      invariant forall v :: v in done <==> v in matched && v in vs[..i]
      invariant forall n :: n in live - db.alive ==> n.table == target || n.table in wrote.tables
      invariant Reached(db, bound, matched, live - db.alive)
    {
      var truth := where(db.rows[vs[i]]);
      if truth == Raises { return Err(ConditionFailed); }
      NextMatched(db, target, where, live, vs, i);
      if truth == True {
        ghost var before, noted := db.alive, wrote.tables;
        var gone := DeleteRow(db, vs[i], wrote, bound, live);
        if gone.Err? { return Err(gone.error); }
        OneMoreDeleted(db, bound, matched, live, before, db.alive, vs[i], target, noted, wrote.tables);
        affected, done := affected + 1, done + {vs[i]};
      }
    }
    AllMatched(db, target, where, live, vs);
    assert done == matched;
    return Ok(affected);
  }

  /** What went without being matched had in all the columns of some cascading key, none of them NULL,
      what the paired columns of another row that went have. */
  ghost predicate WentForReference(db: Store, target: TableId, where: Tuple -> Truth, live: set<Node>, live': set<Node>)
    requires live <= db.rows.Keys
  {
    forall c :: c in live - live' && !(c.table == target && where(db.rows[c]) == True) ==>
      exists d, f :: d in live - live' && f in db.Incoming(d.table) && f.child == c.table && f.onDelete == Cascades
        && |f.columns| == |f.parentCols|
        && (forall k :: 0 <= k < |f.columns| ==> Col(db.rows[c], f.columns[k]).k != KindNull && db.same(Col(db.rows[c], f.columns[k]), Col(db.rows[d], f.parentCols[k])))
  }

  /** What stayed has for every row that went and every key some column that is NULL or differs. */
  ghost predicate StayedUnreferring(db: Store, live: set<Node>, live': set<Node>)
    requires live' <= live <= db.rows.Keys
  {
    forall c, d, f :: c in live' && d in live - live' && f in db.Incoming(d.table) && f.child == c.table ==>
      |f.columns| != |f.parentCols| || exists k :: 0 <= k < |f.columns| && (Col(db.rows[c], f.columns[k]).k == KindNull || !db.same(Col(db.rows[c], f.columns[k]), Col(db.rows[d], f.parentCols[k])))
  }

  /** What went and what stayed, column by column. */
  lemma RemovalExact(db: Store, target: TableId, where: Tuple -> Truth, live: set<Node>, live': set<Node>)
    requires db.Valid() && live <= db.rows.Keys && Detached(db, live, live')
    requires Reached(db, live - live', Matched(db, target, where, live), live - live')
    ensures WentForReference(db, target, where, live, live') && StayedUnreferring(db, live, live')
  {
    ghost var matched := Matched(db, target, where, live);
    forall c | c in live - live' && c !in matched
      ensures exists d: Node, f: ForeignKey :: d in live - live' && f.onDelete == Cascades && db.Link(f, c, d)
    {
      assert CascadedFrom(db, live - live', c);
    }
    forall c, d, f | c in live' && d in live - live' && f in db.Incoming(d.table) && f.child == c.table
      ensures !Points(db.same, f, db.rows[c], db.rows[d])
    {
      assert !db.Under(c, d) && !db.ChildOf(c, d.table, db.rows[d]);
    }
  }

  /** DELETE FROM target WHERE where. A delete that succeeds counts the matched rows and removes exactly
      them and the rows that reference them, directly or through others, leaving no dangling reference.
      Each of the latter was reached through a key that cascades and is the first through which it points
      where it does; so a row that no such key reaches refuses the delete. A delete that fails was refused
      for a reason found among those rows: a row changed by others, or one whose first key does not cascade. */
  method ExecDelete(db: Store, target: TableId, where: Tuple -> Truth) returns (r: Result<nat, Failure>)
    requires db.Valid() && db.NoRewrites()
    modifies db
    ensures db.Valid() && db.alive <= old(db.alive)
    ensures var matched := Matched(db, target, where, old(db.alive));
            var closure := db.Closure(matched, old(db.alive));
            && old(db.alive) - db.alive <= closure
            && (r.Ok? ==> r.value == |matched| && old(db.alive) - db.alive == closure)
            && (r.Ok? ==> Reached(db, closure, matched, closure))
            && (r.Err? && r.error != Dangling && r.error != ConditionFailed ==> Blames(db, old(db.alive), closure, r.error))
    ensures r.Ok? ==> WentForReference(db, target, where, old(db.alive), db.alive) && StayedUnreferring(db, old(db.alive), db.alive)
    ensures r.Ok? ==> forall c :: c in db.alive && c.table == target ==> where(db.rows[c]) != True
    ensures r == Err(ConditionFailed) ==> exists v :: v in old(db.alive) && v.table == target && v in db.rows && where(db.rows[v]) == Raises
    ensures db.Consistent(old(db.alive)) && r.Ok? ==> db.Consistent(db.alive)
    ensures r.Ok? ==> Sound(db, TablesOf(old(db.alive) - db.alive) - {target}, db.alive)
    ensures r == Err(Dangling) ==> !db.Consistent(old(db.alive)) && !db.Consistent(db.alive)
  {
    hide Store.NoRewrites, Store.Valid, Store.Closure, Store.Consistent, Store.Closed, Detached, Store.Under, Sound, Blames, CascadedFrom, Matched,
         WentForReference, StayedUnreferring;
    ghost var live, matched := db.alive, Matched(db, target, where, db.alive);
    InStore(db);
    var wrote := new Touched();
    var deleted := DeleteMatched(db, target, where, wrote, matched);
    if deleted.Err? { return deleted; }
    DetachedClosure(db, live, db.alive, matched);
    if db.Consistent(live) { DetachedConsistent(db, live, db.alive); }
    SoundOfConsistent(db, wrote.tables - {target}, db.alive);
    var check := CheckTouched(db, wrote, target);
    if check.Err? { return Err(check.error); }
    SoundLess(db, wrote.tables - {target}, TablesOf(live - db.alive) - {target}, db.alive);
    RemovalExact(db, target, where, live, db.alive);
    MatchedGone(db, target, where, live);
    return deleted;
  }

  ghost function TablesOf(s: set<Node>): set<TableId> { set n | n in s :: n.table }

  lemma InStore(db: Store)
    requires db.Valid()
    ensures forall v :: v in db.alive ==> v in db.rows
  {}

  lemma MatchedGone(db: Store, target: TableId, where: Tuple -> Truth, live: set<Node>)
    requires live <= db.rows.Keys
    ensures forall c :: c in live ==> (c in Matched(db, target, where, live) <==> c.table == target && where(db.rows[c]) == True)
  {}

  lemma NothingGone(db: Store, live: set<Node>)
    ensures Detached(db, live, live)
  {}

  // ---- which of two keys decides ----

  const PARENT := Node(0, 0)
  const CHILD := Node(1, 0)

  function Key(action: Action): ForeignKey { ForeignKey(1, [0], 0, [0], action) }

  const ROW: Tuple := [IntValue(1)]

  /** One parent, and one child that points at it through two foreign keys. */
  ghost predicate IsFamily(db: Store, first: Action, second: Action) {
    && db.same == Same && db.rows == map[PARENT := ROW, CHILD := ROW]
    && db.order == map[0 := [PARENT], 1 := [CHILD]] && db.busy == {}
    && db.referencedBy == map[0 := [Key(first), Key(second)]] && db.foreignKeys == map[1 := [Key(first), Key(second)]]
  }

  const Same: (Value, Value) -> bool := (a, b) => a == b

  method Family(first: Action, second: Action) returns (db: Store)
    ensures fresh(db) && IsFamily(db, first, second) && db.alive == {PARENT, CHILD}
  {
    var keys := [Key(first), Key(second)];
    db := new Store(Same, map[PARENT := ROW, CHILD := ROW], map[0 := [PARENT], 1 := [CHILD]],
                    map[0 := keys], map[1 := keys], {}, {PARENT, CHILD});
  }

  lemma Pointing(action: Action)
    ensures Points(Same, Key(action), ROW, ROW)
  {
    assert !IsNull(ROW[0]);
  }

  lemma FamilyLinks(db: Store, first: Action, second: Action)
    requires IsFamily(db, first, second)
    ensures db.Link(Key(first), CHILD, PARENT) && db.Link(Key(second), CHILD, PARENT)
    ensures forall f, c, d :: db.Link(f, c, d) ==> c == CHILD && d == PARENT
  {
    hide Points;
    Pointing(first);
    Pointing(second);
    assert db.Incoming(0)[0] == Key(first) && db.Incoming(0)[1] == Key(second);
  }

  lemma FamilyValid(db: Store, first: Action, second: Action)
    requires IsFamily(db, first, second) && db.alive == {PARENT, CHILD}
    requires first != SetNull && first != SetDefault && second != SetNull && second != SetDefault
    ensures db.Valid() && db.NoRewrites()
  {
    hide Points;
    assert forall t, f :: f in db.Incoming(t) ==> t == 0 && (f == Key(first) || f == Key(second));
    assert db.Versions(0) == [PARENT] && db.Versions(1) == [CHILD] && forall t :: t > 1 ==> db.Versions(t) == [];
  }

  lemma FamilyOk(db: Store, first: Action, second: Action)
    requires IsFamily(db, first, second) && db.alive == {PARENT, CHILD}
    requires first != SetNull && first != SetDefault && second != SetNull && second != SetDefault
    ensures db.Valid() && db.NoRewrites() && db.Consistent(db.alive)
  {
    hide Points, Store.Valid, Store.NoRewrites;
    FamilyValid(db, first, second);
    Pointing(first);
    Pointing(second);
    forall c, f | c in db.alive && db.Refers(c, f) ensures db.Anchored(c, f, db.alive) {
      assert PARENT in db.alive && PARENT.table == f.parent && Points(db.same, f, db.rows[c], db.rows[PARENT]);
    }
  }

  lemma FamilyFirst(db: Store, first: Action, second: Action, f: ForeignKey, c: Node, d: Node)
    requires IsFamily(db, first, second) && db.FirstLink(f, c, d)
    ensures f == Key(first)
  {
    hide Points, Store.Link;
    FamilyLinks(db, first, second);
    var q :| 0 <= q < |db.Incoming(d.table)| && db.Incoming(d.table)[q] == f && db.NoEarlierLink(c, d, q);
    assert db.Link(db.Incoming(d.table)[0], c, d);
    assert q == 0;
  }

  lemma ChildInClosure(db: Store, first: Action, second: Action)
    requires IsFamily(db, first, second) && db.alive == {PARENT, CHILD}
    ensures CHILD in db.Closure({PARENT}, db.alive)
  {
    hide Points, Store.Closure;
    FamilyLinks(db, first, second);
    db.ClosureIsClosed({PARENT}, db.alive);
    assert db.Under(CHILD, PARENT);
  }

  const Everything: Tuple -> Truth := _ => True

  /** A RESTRICT key does not refuse if an earlier key has cascaded to the child ... */
  method CascadeBeforeRestrict() returns (r: Result<nat, Failure>)
    ensures r == Ok(1)
  {
    hide Store.Closure, Store.FirstLink, Store.Valid, Store.NoRewrites, Store.Consistent, IsFamily;
    var db := Family(Cascades, Restrict);
    FamilyOk(db, Cascades, Restrict);
    MatchedIsParent(db, Cascades, Restrict);
    forall f, c, d | db.FirstLink(f, c, d) ensures f == Key(Cascades) { FamilyFirst(db, Cascades, Restrict, f, c, d); }
    r := ExecDelete(db, 0, Everything);
  }

  /** ... and the same two keys in the other order do. */
  method RestrictBeforeCascade() returns (r: Result<nat, Failure>)
    ensures r == Err(StillReferenced)
  {
    hide Store.Closure, Store.FirstLink, Store.Valid, Store.NoRewrites, Store.Consistent, IsFamily;
    var db := Family(Restrict, Cascades);
    FamilyOk(db, Restrict, Cascades);
    MatchedIsParent(db, Restrict, Cascades);
    ChildInClosure(db, Restrict, Cascades);
    forall f, c, d | db.FirstLink(f, c, d) ensures f == Key(Restrict) { FamilyFirst(db, Restrict, Cascades, f, c, d); }
    ghost var closure := db.Closure({PARENT}, db.alive);
    assert CHILD in closure - {PARENT} && !CascadedFrom(db, closure, CHILD);
    r := ExecDelete(db, 0, Everything);
  }

  lemma MatchedIsParent(db: Store, first: Action, second: Action)
    requires IsFamily(db, first, second) && db.alive == {PARENT, CHILD}
    ensures Matched(db, 0, Everything, db.alive) == {PARENT} && db.busy == {}
  {}
}
