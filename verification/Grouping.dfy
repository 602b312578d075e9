/** Hash grouping, against the partition of its input into key classes. */
module Grouping {
  import opened Values
  import opened Operators
  import opened Keys

  // ---- what grouping means ----

  /** How rows are keyed and folded: `step` adds one row to a group's accumulators. */
  datatype Fold<!K, !A> = Fold(rule: Rule<K>, keyOf: Tuple -> K, init: A, step: (A, Tuple) -> A)

  /** One key per class, in order of first appearance. */
  function FirstKeys<K, A>(f: Fold<K, A>, rows: seq<Tuple>): seq<K> {
    if rows == [] then []
    else
      var before, key := FirstKeys(f, rows[..|rows| - 1]), f.keyOf(rows[|rows| - 1]);
      if InSome(f.rule, before, key) then before else before + [key]
  }

  predicate InSome<K>(rule: Rule<K>, keys: seq<K>, key: K) {
    exists i :: 0 <= i < |keys| && rule.same(keys[i], key)
  }

  /** The accumulators after exactly the rows of one class, in order. */
  function Folded<K, A>(f: Fold<K, A>, rows: seq<Tuple>, key: K): A {
    if rows == [] then f.init
    else
      var acc, row := Folded(f, rows[..|rows| - 1], key), rows[|rows| - 1];
      if f.rule.same(key, f.keyOf(row)) then f.step(acc, row) else acc
  }

  /** The rows of one class, in order. */
  function GroupOf<K, A>(f: Fold<K, A>, rows: seq<Tuple>, key: K): seq<Tuple> {
    if rows == [] then []
    else
      var row := rows[|rows| - 1];
      GroupOf(f, rows[..|rows| - 1], key) + (if f.rule.same(key, f.keyOf(row)) then [row] else [])
  }

  function FoldAll<A>(step: (A, Tuple) -> A, init: A, rows: seq<Tuple>): A {
    if rows == [] then init else step(FoldAll(step, init, rows[..|rows| - 1]), rows[|rows| - 1])
  }

  /** Folding a class is folding its group. */
  lemma {:induction false} FoldsItsGroup<K, A>(f: Fold<K, A>, rows: seq<Tuple>, key: K)
    ensures Folded(f, rows, key) == FoldAll(f.step, f.init, GroupOf(f, rows, key))
  {
    if rows != [] {
      var before, row := rows[..|rows| - 1], rows[|rows| - 1];
      FoldsItsGroup(f, before, key);
      assert (GroupOf(f, before, key) + [row])[..|GroupOf(f, before, key)|] == GroupOf(f, before, key);
      assert GroupOf(f, before, key) + [] == GroupOf(f, before, key);
    }
  }

  ghost predicate Classes<K>(rule: Rule<K>, keys: seq<K>) {
    forall i, j :: 0 <= i < j < |keys| ==> !rule.same(keys[i], keys[j])
  }

  function Sizes<K, A>(f: Fold<K, A>, rows: seq<Tuple>, keys: seq<K>): nat {
    if keys == [] then 0 else Sizes(f, rows, keys[..|keys| - 1]) + |GroupOf(f, rows, keys[|keys| - 1])|
  }

  /** The group keys are of different classes and cover every row. */
  lemma {:induction false} KeysCover<K(!new), A>(f: Fold<K, A>, rows: seq<Tuple>)
    requires Lawful(f.rule)
    ensures Classes(f.rule, FirstKeys(f, rows))
    ensures forall r :: 0 <= r < |rows| ==> InSome(f.rule, FirstKeys(f, rows), f.keyOf(rows[r]))
  {
    if rows != [] {
      var before, key := rows[..|rows| - 1], f.keyOf(rows[|rows| - 1]);
      KeysCover(f, before);
      var old', keys := FirstKeys(f, before), FirstKeys(f, rows);
      assert old' <= keys;
      forall r | 0 <= r < |rows| ensures InSome(f.rule, keys, f.keyOf(rows[r])) {
        if r < |before| {
          var i :| 0 <= i < |old'| && f.rule.same(old'[i], f.keyOf(before[r]));
          assert keys[i] == old'[i];
        } else if |keys| > |old'| {
          assert f.rule.same(keys[|old'|], key);
        }
      }
    }
  }

  /** No row before this one is of its class. */
  predicate FirstOfClass<K, A>(f: Fold<K, A>, rows: seq<Tuple>, p: nat) {
    p < |rows| && forall q :: 0 <= q < p ==> !f.rule.same(f.keyOf(rows[q]), f.keyOf(rows[p]))
  }

  /** The places where the group keys, and the rows DISTINCT keeps, were found. */
  ghost predicate FoundAt<K, A>(f: Fold<K, A>, rows: seq<Tuple>, keys: seq<K>, firsts: seq<Tuple>, at: seq<nat>) {
    && |at| == |keys| == |firsts|
    && (forall g :: 0 <= g < |at| ==> at[g] < |rows| && keys[g] == f.keyOf(rows[at[g]]) && firsts[g] == rows[at[g]])
    && (forall g, h :: 0 <= g < h < |at| ==> at[g] < at[h])
  }

  /** The group keys, and the rows DISTINCT keeps, are those of the first row of each class, in the order
      of those rows. */
  lemma {:induction false} FirstAppearance<K(!new), A>(f: Fold<K, A>, rows: seq<Tuple>) returns (at: seq<nat>)
    requires Lawful(f.rule)
    ensures FoundAt(f, rows, FirstKeys(f, rows), FirstRows(f, rows), at)
    ensures forall p: nat :: p in at <==> FirstOfClass(f, rows, p)
  {
    hide Lawful, FirstOfClass, FirstKeys, FirstRows;
    at := [];
    if rows == [] {
      NoFirsts(f);
    } else {
      hide FoundAt;
      var before, row := rows[..|rows| - 1], rows[|rows| - 1];
      var was := FirstAppearance(f, before);
      at := AppearsNext(f, before, row, was);
      assert rows == before + [row];
    }
  }

  lemma NoFirsts<K, A>(f: Fold<K, A>)
    ensures FirstKeys(f, []) == [] && FirstRows(f, []) == []
    ensures forall p: nat :: !FirstOfClass(f, [], p)
  {}

  lemma AppearsNext<K(!new), A>(f: Fold<K, A>, before: seq<Tuple>, row: Tuple, was: seq<nat>) returns (at: seq<nat>)
    requires Lawful(f.rule) && FoundAt(f, before, FirstKeys(f, before), FirstRows(f, before), was)
    requires forall p: nat :: p in was <==> FirstOfClass(f, before, p)
    ensures FoundAt(f, before + [row], FirstKeys(f, before + [row]), FirstRows(f, before + [row]), at)
    ensures forall p: nat :: p in at <==> FirstOfClass(f, before + [row], p)
  {
    hide Lawful, FirstOfClass, FirstKeys, FirstRows, InSome, Classes, FoundAt;
    var keys, firsts := FirstKeys(f, before), FirstRows(f, before);
    KeysCover(f, before);
    SeenBefore(f, before, row, keys, firsts, was);
    FirstStays(f, before, row);
    FirstKeysNext(f, before, row);
    FirstRowsNext(f, before, row);
    FoundNext(f, before, row, keys, firsts, was);
    at := was;
    if FirstOfClass(f, before + [row], |before|) { at := was + [|before|]; }
    assert keys + [] == keys && firsts + [] == firsts;
  }

  lemma FoundNext<K, A>(f: Fold<K, A>, before: seq<Tuple>, row: Tuple, keys: seq<K>, firsts: seq<Tuple>, at: seq<nat>)
    requires FoundAt(f, before, keys, firsts, at)
    ensures FoundAt(f, before + [row], keys, firsts, at)
    ensures FoundAt(f, before + [row], keys + [f.keyOf(row)], firsts + [row], at + [|before|])
  {}

  lemma FirstStays<K, A>(f: Fold<K, A>, before: seq<Tuple>, row: Tuple)
    ensures forall p: nat :: FirstOfClass(f, before + [row], p) <==>
              FirstOfClass(f, before, p) || (p == |before| && FirstOfClass(f, before + [row], |before|))
  {
    forall p: nat | p < |before| ensures FirstOfClass(f, before + [row], p) <==> FirstOfClass(f, before, p) {
      assert forall q :: 0 <= q <= p ==> (before + [row])[q] == before[q];
    }
  }

  /** A row's class is among the keys of the rows before it exactly when one of those is of it. */
  lemma SeenBefore<K(!new), A>(f: Fold<K, A>, before: seq<Tuple>, row: Tuple, keys: seq<K>, firsts: seq<Tuple>, at: seq<nat>)
    requires Lawful(f.rule) && FoundAt(f, before, keys, firsts, at)
    requires forall r :: 0 <= r < |before| ==> InSome(f.rule, keys, f.keyOf(before[r]))
    ensures InSome(f.rule, keys, f.keyOf(row)) <==> !FirstOfClass(f, before + [row], |before|)
  {
    hide Lawful;
    var key, rows := f.keyOf(row), before + [row];
    if InSome(f.rule, keys, key) {
      var g :| 0 <= g < |keys| && f.rule.same(keys[g], key);
      assert rows[at[g]] == before[at[g]];
    }
    if q :| 0 <= q < |before| && f.rule.same(f.keyOf(rows[q]), key) {
      assert rows[q] == before[q];
      var g :| 0 <= g < |keys| && f.rule.same(keys[g], f.keyOf(before[q]));
      SameChain(f.rule, keys[g], f.keyOf(before[q]), key);
    }
  }

  lemma SameChain<K(!new)>(rule: Rule<K>, a: K, b: K, c: K)
    requires Lawful(rule) && rule.same(a, b) && rule.same(b, c)
    ensures rule.same(a, c)
  {}

  /** A group is the rows of its class, in their order, each once. */
  lemma {:induction false} GroupSelects<K, A>(f: Fold<K, A>, rows: seq<Tuple>, key: K) returns (at: seq<nat>)
    ensures var group := GroupOf(f, rows, key);
            |at| == |group| && forall i :: 0 <= i < |at| ==> at[i] < |rows| && group[i] == rows[at[i]]
    ensures forall i, j :: 0 <= i < j < |at| ==> at[i] < at[j]
    ensures forall p: nat :: p in at <==> p < |rows| && f.rule.same(key, f.keyOf(rows[p]))
  {
    at := [];
    if rows != [] {
      var n := |rows| - 1;
      at := GroupSelects(f, rows[..n], key);
      assert forall p :: 0 <= p < n ==> rows[..n][p] == rows[p];
      if f.rule.same(key, f.keyOf(rows[n])) { at := at + [n]; }
    }
  }

  /** Adding a row to the classes grows exactly one group. */
  lemma {:induction false} OneGroupGrows<K(!new), A>(f: Fold<K, A>, rows: seq<Tuple>, row: Tuple, keys: seq<K>)
    requires Lawful(f.rule) && Classes(f.rule, keys)
    ensures Sizes(f, rows + [row], keys)
            == Sizes(f, rows, keys) + (if InSome(f.rule, keys, f.keyOf(row)) then 1 else 0)
  {
    if keys != [] {
      var last, rest := keys[|keys| - 1], keys[..|keys| - 1];
      OneGroupGrows(f, rows, row, rest);
      assert (rows + [row])[..|rows|] == rows;
      if f.rule.same(last, f.keyOf(row)) {
        forall i | 0 <= i < |rest| ensures !f.rule.same(rest[i], f.keyOf(row)) {
          assert !f.rule.same(keys[i], keys[|keys| - 1]);
        }
        assert f.rule.same(keys[|keys| - 1], f.keyOf(row));
      } else if i :| 0 <= i < |keys| && f.rule.same(keys[i], f.keyOf(row)) {
        assert rest[i] == keys[i];
      }
    }
  }

  /** Grouping partitions its input: the groups' sizes add up to it, no class twice. */
  lemma {:induction false} GroupsPartition<K(!new), A>(f: Fold<K, A>, rows: seq<Tuple>)
    requires Lawful(f.rule)
    ensures Classes(f.rule, FirstKeys(f, rows)) && Sizes(f, rows, FirstKeys(f, rows)) == |rows|
  {
    hide Sizes, FirstKeys, Lawful, Classes, InSome;
    KeysCover(f, rows);
    if rows == [] {
      NoGroups(f);
    } else {
      var before, row := rows[..|rows| - 1], rows[|rows| - 1];
      GroupsPartition(f, before);
      assert rows == before + [row];
      PartitionOneMore(f, before, row);
    }
  }

  lemma NoGroups<K, A>(f: Fold<K, A>)
    ensures Sizes(f, [], FirstKeys(f, [])) == 0
  {}

  lemma PartitionOneMore<K(!new), A>(f: Fold<K, A>, rows: seq<Tuple>, row: Tuple)
    requires Lawful(f.rule) && Classes(f.rule, FirstKeys(f, rows)) && Sizes(f, rows, FirstKeys(f, rows)) == |rows|
    ensures Sizes(f, rows + [row], FirstKeys(f, rows + [row])) == |rows| + 1
  {
    hide Sizes, Lawful, Classes, InSome, GroupOf;
    assert (rows + [row])[..|rows|] == rows;
    var keys := FirstKeys(f, rows);
    OneGroupGrows(f, rows, row, keys);
    if !InSome(f.rule, keys, f.keyOf(row)) { NewGroup(f, rows, row, keys); }
  }

  lemma NewGroup<K(!new), A>(f: Fold<K, A>, rows: seq<Tuple>, row: Tuple, keys: seq<K>)
    requires Lawful(f.rule) && Sizes(f, rows, keys) == |rows| && keys == FirstKeys(f, rows)
    requires !InSome(f.rule, keys, f.keyOf(row))
    requires Sizes(f, rows + [row], keys) == Sizes(f, rows, keys)
    ensures Sizes(f, rows + [row], keys + [f.keyOf(row)]) == |rows| + 1
  {
    var key := f.keyOf(row);
    assert (keys + [key])[..|keys|] == keys && (rows + [row])[..|rows|] == rows;
    KeysCover(f, rows);
    NoneOfClass(f, rows, keys, key);
  }

  lemma {:induction false} NoneOfClass<K(!new), A>(f: Fold<K, A>, rows: seq<Tuple>, keys: seq<K>, key: K)
    requires Lawful(f.rule) && !InSome(f.rule, keys, key)
    requires forall r :: 0 <= r < |rows| ==> InSome(f.rule, keys, f.keyOf(rows[r]))
    ensures GroupOf(f, rows, key) == []
  {
    if rows != [] {
      var r := |rows| - 1;
      assert forall q :: 0 <= q < r ==> rows[..r][q] == rows[q];
      NoneOfClass(f, rows[..r], keys, key);
      var i :| 0 <= i < |keys| && f.rule.same(keys[i], f.keyOf(rows[r]));
      NotSame(f.rule, keys[i], f.keyOf(rows[r]), key);
    }
  }

  lemma NotSame<K(!new)>(rule: Rule<K>, a: K, b: K, c: K)
    requires Lawful(rule) && rule.same(a, b) && !rule.same(a, c)
    ensures !rule.same(c, b)
  {}

  lemma FoldedNext<K, A>(f: Fold<K, A>, rows: seq<Tuple>, row: Tuple, key: K)
    ensures Folded(f, rows + [row], key)
            == if f.rule.same(key, f.keyOf(row)) then f.step(Folded(f, rows, key), row) else Folded(f, rows, key)
  {
    assert (rows + [row])[..|rows|] == rows;
  }

  lemma FirstKeysNext<K, A>(f: Fold<K, A>, rows: seq<Tuple>, row: Tuple)
    ensures FirstKeys(f, rows + [row])
            == FirstKeys(f, rows) + (if InSome(f.rule, FirstKeys(f, rows), f.keyOf(row)) then [] else [f.keyOf(row)])
  {
    hide InSome;
    assert (rows + [row])[..|rows|] == rows;
  }

  /** A class with no row yet folds to the initial accumulators. */
  lemma FoldedNone<K(!new), A>(f: Fold<K, A>, rows: seq<Tuple>, key: K)
    requires Lawful(f.rule) && !InSome(f.rule, FirstKeys(f, rows), key)
    ensures Folded(f, rows, key) == f.init
  {
    KeysCover(f, rows);
    NoneOfClass(f, rows, FirstKeys(f, rows), key);
    FoldsItsGroup(f, rows, key);
  }

  /** The operator's output: one row per class, or one row over no input when there is no GROUP BY. */
  function Output<K, A>(f: Fold<K, A>, keyless: Option<K>, rows: seq<Tuple>): seq<(K, A)> {
    if rows == [] then (match keyless case Some(k) => [(k, f.init)] case None => [])
    else
      var keys := FirstKeys(f, rows);
      seq(|keys|, g requires 0 <= g < |keys| => (keys[g], Folded(f, rows, keys[g])))
  }

  lemma OverNothing<K, A>(f: Fold<K, A>, keyless: Option<K>)
    ensures Output(f, keyless, []) == match keyless case Some(k) => [(k, f.init)] case None => []
  {}

  // ---- the operator ----

  /** One group: its key, and accumulators updated in place. */
  class Group<K, A> {
    const key: K
    var acc: A

    constructor (key: K, acc: A)
      ensures this.key == key && this.acc == acc
    {
      this.key, this.acc := key, acc;
    }
  }

  /** Every group is found in the bucket of its hash, and buckets hold nothing else. */
  ghost predicate IndexedBy<K, A>(rule: Rule<K>, groups: seq<Group<K, A>>, index: map<uint64, seq<Group<K, A>>>) {
    && (forall g :: 0 <= g < |groups| ==> FiledUnder(index, rule.hash(groups[g].key), groups[g]))
    && (forall h, o :: FiledUnder(index, h, o) ==> o in groups)
    && (forall g, g' :: 0 <= g < g' < |groups| ==> groups[g] != groups[g'])
  }

  predicate FiledUnder<K, A>(index: map<uint64, seq<Group<K, A>>>, h: uint64, older g: Group<K, A>) { h in index && g in index[h] }

  lemma IndexGrows<K, A>(rule: Rule<K>, groups: seq<Group<K, A>>, index: map<uint64, seq<Group<K, A>>>, g: Group<K, A>)
    requires IndexedBy(rule, groups, index) && g !in groups
    ensures var h := rule.hash(g.key);
            IndexedBy(rule, groups + [g], index[h := (if h in index then index[h] else []) + [g]])
  {
    var h := rule.hash(g.key);
    var old' := if h in index then index[h] else [];
    var index' := index[h := old' + [g]];
    assert index'[h][|old'|] == g;
    forall k, o ensures FiledUnder(index', k, o) <==> FiledUnder(index, k, o) || (k == h && o == g) {
      if k == h && o in old' {
        var i :| 0 <= i < |old'| && old'[i] == o;
        assert index'[h][i] == o;
      }
    }
    assert (groups + [g])[|groups|] == g;
    forall o | o in groups ensures o in groups + [g] {
      var i :| 0 <= i < |groups| && groups[i] == o;
      assert (groups + [g])[i] == o;
    }
  }

  class AggregateOp<K(!new), A(!new)> {
    const input: Input<Tuple>
    const fold: Fold<K, A>
    /** The key of the one group a query without GROUP BY has, or None with GROUP BY. */
    const keyless: Option<K>
    var groups: seq<Group<K, A>>
    var index: map<uint64, seq<Group<K, A>>>
    var built: bool
    var i: nat
    ghost const allRows: seq<Tuple>

    function Bucket(h: uint64): seq<Group<K, A>>
      reads `index
    {
      if h in index then index[h] else []
    }

    ghost predicate Indexed()
      reads `groups, `index
    {
      IndexedBy(fold.rule, groups, index)
    }

    /** The groups are the classes of `rows` in order, each folded over its own rows. */
    ghost predicate Groups(rows: seq<Tuple>)
      reads `groups, groups
    {
      && Lawful(fold.rule)
      && |groups| == |FirstKeys(fold, rows)|
      && (forall g :: 0 <= g < |groups| ==> groups[g].key == FirstKeys(fold, rows)[g])
      && (forall g :: 0 <= g < |groups| ==> groups[g].acc == Folded(fold, rows, groups[g].key))
    }

    constructor (input: Input<Tuple>, fold: Fold<K, A>, keyless: Option<K>)
      requires Lawful(fold.rule)
      ensures Indexed() && Groups([]) && groups == [] && !built && i == 0
      ensures this.input == input && this.fold == fold && this.keyless == keyless && allRows == input.rest
    {
      this.input, this.fold, this.keyless := input, fold, keyless;
      groups, index, built, i := [], map[], false, 0;
      allRows := input.rest;
    }

    /** The group for a key, created on first sight. */
    method Find(key: K) returns (g: Group<K, A>)
      requires Indexed() && Lawful(fold.rule)
      modifies `groups, `index
      ensures Indexed() && g in groups && fold.rule.same(g.key, key)
      ensures old(groups) <= groups && |groups| <= |old(groups)| + 1
      ensures |groups| == |old(groups)| + 1 ==> fresh(g) && groups == old(groups) + [g] && g.key == key && g.acc == fold.init
      ensures |groups| == |old(groups)| + 1 ==> forall o :: 0 <= o < |old(groups)| ==> !fold.rule.same(old(groups)[o].key, key)
    {
      hide Indexed;
      var bucket := Bucket(fold.rule.hash(key));
      for b := 0 to |bucket|
        invariant unchanged(`groups) && unchanged(`index)
        invariant forall c :: 0 <= c < b ==> !fold.rule.same(bucket[c].key, key)
      {
        if fold.rule.same(bucket[b].key, key) {
          BucketHolds(fold.rule.hash(key), b);
          return bucket[b];
        }
      }
      Absent(key);
      g := NewGroup(key);
    }

    lemma BucketHolds(h: uint64, b: nat)
      requires Indexed() && b < |Bucket(h)|
      ensures Bucket(h)[b] in groups
    {
      assert FiledUnder(index, h, Bucket(h)[b]);
    }

    lemma Absent(key: K)
      requires Indexed() && Lawful(fold.rule)
      requires var bucket := Bucket(fold.rule.hash(key)); forall c :: 0 <= c < |bucket| ==> !fold.rule.same(bucket[c].key, key)
      ensures forall o :: 0 <= o < |groups| ==> !fold.rule.same(groups[o].key, key)
    {
      forall o | 0 <= o < |groups| ensures !fold.rule.same(groups[o].key, key) {
        var h := fold.rule.hash(groups[o].key);
        assert FiledUnder(index, h, groups[o]);
        assert groups[o] in Bucket(h);
      }
    }

    method NewGroup(key: K) returns (g: Group<K, A>)
      requires Indexed() && Lawful(fold.rule)
      modifies `groups, `index
      ensures Indexed() && fresh(g) && groups == old(groups) + [g] && g.key == key && g.acc == fold.init
    {
      hide Lawful, IndexedBy;
      var sum := fold.rule.hash(key);
      var bucket := Bucket(sum);
      g := new Group(key, fold.init);
      IndexGrows(fold.rule, groups, index, g);
      index := index[sum := bucket + [g]];
      groups := groups + [g];
    }

    /** Folds one row into its group. */
    method AddRow(row: Tuple, ghost rows: seq<Tuple>)
      requires Indexed() && Groups(rows)
      modifies `groups, `index, groups
      ensures Indexed() && Groups(rows + [row])
      ensures forall k :: 0 <= k < |groups| ==> groups[k] in old(groups) || fresh(groups[k])
    {
      hide Bucket, Folded, FirstKeys, Lawful;
      var key := fold.keyOf(row);
      ghost var keys := FirstKeys(fold, rows);
      FirstKeysNext(fold, rows, row);
      KeysCover(fold, rows);
      var g := Find(key);
      ghost var gi :| 0 <= gi < |groups| && groups[gi] == g;
      if |groups| == |old(groups)| {
        assert fold.rule.same(keys[gi], key);
        OthersDiffer(fold.rule, keys, gi, key);
      } else {
        assert forall o :: 0 <= o < |keys| ==> keys[o] == old(groups)[o].key;
        FoldedNone(fold, rows, key);
      }
      forall o | 0 <= o < |groups| { FoldedNext(fold, rows, row, groups[o].key); }
      g.acc := fold.step(g.acc, row);
    }

    /** Folds the whole input. Without GROUP BY there is one group even over no rows. */
    method Build() returns (r: Result<(), ExecError>)
      requires Indexed() && Groups([]) && groups == [] && !built && input.rest == allRows
      modifies this, input
      ensures r.Err? <==> input.fails
      ensures r.Ok? ==> built && i == old(i) && Holds()
      ensures r.Ok? && allRows == [] ==>
                match keyless
                case Some(k) => |groups| == 1 && groups[0].key == k && groups[0].acc == fold.init
                case None => groups == []
    {
      hide Bucket, Folded, FirstKeys, Lawful, Indexed;
      ghost var rows: seq<Tuple> := [];
      while true
        invariant rows + input.rest == allRows && Indexed() && Groups(rows) && i == old(i)
        invariant forall k :: 0 <= k < |groups| ==> fresh(groups[k])
        decreases |input.rest|
      {
        var row := input.Next();
        if row.Err? { return Err(row.error); }
        if row.value.None? { break; }
        AddRow(row.value.value, rows);
        rows := rows + [row.value.value];
      }
      NoRowsNoKeys(fold, rows);
      OverNothing(fold, keyless);
      assert rows == allRows;
      if groups == [] && keyless.Some? {
        var g := new Group(keyless.value, fold.init);
        groups := [g];
      }
      built := true;
      return Ok(());
    }

    /** The finished groups are the output. */
    ghost predicate Holds()
      reads `groups, groups
    {
      && |groups| == |Output(fold, keyless, allRows)|
      && forall g :: 0 <= g < |groups| ==> (groups[g].key, groups[g].acc) == Output(fold, keyless, allRows)[g]
    }

    ghost predicate Valid()
      reads this, input, groups
    {
      if built then Holds() && i <= |groups| && !input.fails
      else Indexed() && Groups([]) && groups == [] && input.rest == allRows && i == 0
    }

    /** Returns the groups one by one, in first-appearance order. */
    method Next() returns (r: Result<Option<(K, A)>, ExecError>)
      requires Valid()
      modifies this, input
      ensures r.Err? ==> input.fails
      ensures r.Ok? ==> Valid() && built && !input.fails
      ensures r.Ok? && allRows == [] ==>
                r.value == if keyless.Some? && old(i) == 0 then Some((keyless.value, fold.init)) else None
      ensures r.Ok? && r.value.Some? ==>
                old(i) < |Output(fold, keyless, allRows)| && r.value.value == Output(fold, keyless, allRows)[old(i)] && i == old(i) + 1
      ensures r.Ok? && r.value.None? ==> i == |Output(fold, keyless, allRows)|
    {
      hide Bucket, Folded, FirstKeys, Lawful, Indexed, Output;
      if !built {
        var build := Build();
        if build.Err? { return Err(build.error); }
      }
      OverNothing(fold, keyless);
      if i >= |groups| { return Ok(None); }
      var g := groups[i];
      i := i + 1;
      return Ok(Some((g.key, g.acc)));
    }
  }

  // ---- DISTINCT ----

  /** The first row of each class, in order. */
  function FirstRows<K, A>(f: Fold<K, A>, rows: seq<Tuple>): seq<Tuple> {
    if rows == [] then []
    else
      var before, row := rows[..|rows| - 1], rows[|rows| - 1];
      FirstRows(f, before) + (if InSome(f.rule, FirstKeys(f, before), f.keyOf(row)) then [] else [row])
  }

  /** DISTINCT and GROUP BY agree: the keys of the rows DISTINCT keeps are the group keys. */
  lemma {:induction false} DistinctKeys<K, A>(f: Fold<K, A>, rows: seq<Tuple>)
    ensures |FirstRows(f, rows)| == |FirstKeys(f, rows)|
    ensures forall i :: 0 <= i < |FirstRows(f, rows)| ==> f.keyOf(FirstRows(f, rows)[i]) == FirstKeys(f, rows)[i]
  {
    hide InSome;
    if rows != [] { DistinctKeys(f, rows[..|rows| - 1]); }
  }

  lemma FirstRowsNext<K, A>(f: Fold<K, A>, rows: seq<Tuple>, row: Tuple)
    ensures FirstRows(f, rows + [row])
            == FirstRows(f, rows) + (if InSome(f.rule, FirstKeys(f, rows), f.keyOf(row)) then [] else [row])
  {
    hide InSome;
    assert (rows + [row])[..|rows|] == rows;
  }

  lemma InSomeNext<K(!new), A>(f: Fold<K, A>, rows: seq<Tuple>, row: Tuple, k: K)
    requires Lawful(f.rule)
    ensures InSome(f.rule, FirstKeys(f, rows + [row]), k) <==> InSome(f.rule, FirstKeys(f, rows), k) || f.rule.same(f.keyOf(row), k)
  {
    hide FirstKeys;
    FirstKeysNext(f, rows, row);
    var keys, key := FirstKeys(f, rows), f.keyOf(row);
    if InSome(f.rule, keys, key) {
      var i :| 0 <= i < |keys| && f.rule.same(keys[i], key);
      assert keys + [] == keys;
      assert f.rule.same(key, k) ==> f.rule.same(keys[i], k);
    } else {
      assert (keys + [key])[|keys|] == key;
      assert forall i :: 0 <= i < |keys| ==> (keys + [key])[i] == keys[i];
    }
  }

  /** Streams its input, dropping rows whose key has been seen. */
  class DistinctOp<K(!new), A(!new)> {
    const input: Input<Tuple>
    const fold: Fold<K, A>
    const seen: KeySet<K>
    ghost const allRows: seq<Tuple>
    ghost var read: seq<Tuple>

    ghost predicate Valid()
      reads this, input, seen
    {
      && Lawful(fold.rule) && seen.Valid() && seen.rule == fold.rule && allRows == read + input.rest
      && forall k :: seen.Contains(k) <==> InSome(fold.rule, FirstKeys(fold, read), k)
    }

    constructor (input: Input<Tuple>, fold: Fold<K, A>)
      requires Lawful(fold.rule)
      ensures Valid() && this.input == input && this.fold == fold && allRows == input.rest && read == [] && fresh(seen)
    {
      this.input, this.fold := input, fold;
      allRows, read := input.rest, [];
      seen := new KeySet(fold.rule);
    }

    /** Emits the next row whose key is new; what has been emitted is always the first rows so far. */
    method Next() returns (r: Result<Option<Tuple>, ExecError>)
      requires Valid()
      modifies this, input, seen
      ensures r.Err? ==> input.fails
      ensures r.Ok? ==> Valid()
      ensures r.Ok? && r.value.Some? ==> FirstRows(fold, read) == old(FirstRows(fold, read)) + [r.value.value]
      ensures r.Ok? && r.value.None? ==> FirstRows(fold, read) == old(FirstRows(fold, read)) == FirstRows(fold, allRows)
      ensures r.Ok? && r.value.None? ==> !input.fails
    {
      hide InSome, FirstKeys, FirstRows, Lawful, KeySet.Valid, KeySet.Contains;
      while true
        invariant Valid() && FirstRows(fold, read) == old(FirstRows(fold, read))
        decreases |input.rest|
      {
        var row := input.Next();
        if row.Err? { return Err(row.error); }
        if row.value.None? {
          assert read == allRows;
          return Ok(None);
        }
        FirstRowsNext(fold, read, row.value.value);
        forall k { InSomeNext(fold, read, row.value.value, k); }
        var isNew := seen.Add(fold.keyOf(row.value.value));
        read := read + [row.value.value];
        if isNew { return Ok(row.value); }
      }
    }
  }

  lemma OthersDiffer<K(!new)>(rule: Rule<K>, keys: seq<K>, g: nat, key: K)
    requires Lawful(rule) && Classes(rule, keys) && g < |keys| && rule.same(keys[g], key)
    ensures InSome(rule, keys, key)
    ensures forall o :: 0 <= o < |keys| && o != g ==> !rule.same(keys[o], key)
  {
    forall o | 0 <= o < |keys| && o != g ensures !rule.same(keys[o], key) {
      assert if o < g then !rule.same(keys[o], keys[g]) else !rule.same(keys[g], keys[o]);
      NotSame(rule, keys[g], key, keys[o]);
    }
  }

  lemma NoRowsNoKeys<K(!new), A>(f: Fold<K, A>, rows: seq<Tuple>)
    requires Lawful(f.rule)
    ensures FirstKeys(f, rows) == [] <==> rows == []
  {
    KeysCover(f, rows);
    if rows != [] { assert InSome(f.rule, FirstKeys(f, rows), f.keyOf(rows[0])); }
  }
}
