/** The hashed uniqueness check against the pairwise definition of a unique key. */
module Uniqueness {
  import opened Values
  import opened Operators
  import opened Keys

  predicate InRange(row: Tuple, cols: seq<nat>) { forall c :: 0 <= c < |cols| ==> cols[c] < |row| }

  function KeyOf(row: Tuple, cols: seq<nat>): (k: Tuple)
    requires InRange(row, cols)
    ensures |k| == |cols|
  {
    seq(|cols|, c requires 0 <= c < |cols| => row[cols[c]])
  }

  predicate HasNull(key: Tuple) { exists c :: 0 <= c < |key| && IsNull(key[c]) }

  /** A row the constraint applies to: no NULL in its key, and the index's condition, if any, true of it. */
  predicate Covered(row: Tuple, cols: seq<nat>, covers: Option<Tuple -> Truth>)
    requires InRange(row, cols)
  {
    !HasNull(KeyOf(row, cols)) && (covers.Some? ==> covers.value(row) == True)
  }

  /** Two rows collide when both are covered and agree on every key column. */
  predicate Collide(rule: Rule<Value>, rows: seq<Tuple>, cols: seq<nat>, covers: Option<Tuple -> Truth>, i: nat, j: nat)
    requires i < |rows| && j < |rows| && forall r :: 0 <= r < |rows| ==> InRange(rows[r], cols)
  {
    && Covered(rows[i], cols, covers) && Covered(rows[j], cols, covers)
    && Agree(rule, KeyOf(rows[i], cols), KeyOf(rows[j], cols))
  }

  predicate Agree(rule: Rule<Value>, a: Tuple, b: Tuple) {
    |a| == |b| && forall c :: 0 <= c < |a| ==> rule.same(a[c], b[c])
  }

  /** What two colliding rows are, column by column. */
  lemma CollideIs(rule: Rule<Value>, rows: seq<Tuple>, cols: seq<nat>, covers: Option<Tuple -> Truth>, i: nat, j: nat)
    requires i < |rows| && j < |rows| && forall r :: 0 <= r < |rows| ==> InRange(rows[r], cols)
    ensures Collide(rule, rows, cols, covers, i, j) <==>
            && (forall c :: 0 <= c < |cols| ==> rows[i][cols[c]].k != KindNull && rows[j][cols[c]].k != KindNull)
            && (covers.Some? ==> covers.value(rows[i]) == True && covers.value(rows[j]) == True)
            && (forall c :: 0 <= c < |cols| ==> rule.same(rows[i][cols[c]], rows[j][cols[c]]))
  {
    var a, b := KeyOf(rows[i], cols), KeyOf(rows[j], cols);
    assert forall c :: 0 <= c < |cols| ==> a[c] == rows[i][cols[c]] && b[c] == rows[j][cols[c]];
  }

  /** The condition is asked about a row, which no NULL in the key has set aside, and fails. */
  predicate RaisesOn(row: Tuple, cols: seq<nat>, covers: Option<Tuple -> Truth>)
    requires InRange(row, cols)
  {
    covers.Some? && covers.value(row) == Raises && forall c :: 0 <= c < |cols| ==> row[cols[c]].k != KindNull
  }

  /** The hash of a key is computed from the hashes of its values, in order. */
  function HashKey(mix: (uint64, uint64) -> uint64, rule: Rule<Value>, key: Tuple): uint64 {
    if key == [] then 0 else mix(HashKey(mix, rule, key[..|key| - 1]), rule.hash(key[|key| - 1]))
  }

  lemma {:induction false} AgreeHash(mix: (uint64, uint64) -> uint64, rule: Rule<Value>, a: Tuple, b: Tuple)
    requires Lawful(rule) && Agree(rule, a, b)
    ensures HashKey(mix, rule, a) == HashKey(mix, rule, b)
  {
    if a != [] {
      assert rule.same(a[|a| - 1], b[|b| - 1]);
      AgreeHash(mix, rule, a[..|a| - 1], b[..|b| - 1]);
    }
  }

  datatype Verdict = Unique | Violated(row: nat) | Failed(row: nat)

  method AnyNull(row: Tuple, cols: seq<nat>) returns (b: bool)
    requires InRange(row, cols)
    ensures b <==> HasNull(KeyOf(row, cols))
    ensures b <==> exists c :: 0 <= c < |cols| && row[cols[c]].k == KindNull
  {
    for c := 0 to |cols|
      invariant forall d :: 0 <= d < c ==> !IsNull(KeyOf(row, cols)[d]) && row[cols[d]].k != KindNull
    {
      if IsNull(row[cols[c]]) {
        assert IsNull(KeyOf(row, cols)[c]);
        return true;
      }
    }
    return false;
  }

  method KeyEqual(rule: Rule<Value>, a: Tuple, b: Tuple, cols: seq<nat>) returns (eq: bool)
    requires InRange(a, cols) && InRange(b, cols)
    ensures eq <==> Agree(rule, KeyOf(a, cols), KeyOf(b, cols))
  {
    for c := 0 to |cols|
      invariant forall d :: 0 <= d < c ==> rule.same(a[cols[d]], b[cols[d]])
    {
      if !rule.same(a[cols[c]], b[cols[c]]) {
        assert !rule.same(KeyOf(a, cols)[c], KeyOf(b, cols)[c]);
        return false;
      }
    }
    return true;
  }

  method HashRow(mix: (uint64, uint64) -> uint64, rule: Rule<Value>, row: Tuple, cols: seq<nat>) returns (h: uint64)
    requires InRange(row, cols)
    ensures h == HashKey(mix, rule, KeyOf(row, cols))
  {
    h := 0;
    ghost var key := KeyOf(row, cols);
    for c := 0 to |cols|
      invariant h == HashKey(mix, rule, key[..c])
    {
      assert key[..c + 1][..c] == key[..c];
      h := mix(h, rule.hash(row[cols[c]]));
    }
    assert key[..|cols|] == key;
  }

  predicate InBucket(buckets: map<uint64, seq<nat>>, h: uint64, r: nat) { h in buckets && r in buckets[h] }

  predicate AllInRange(rows: seq<Tuple>, cols: seq<nat>) { forall r :: 0 <= r < |rows| ==> InRange(rows[r], cols) }

  /** The buckets hold exactly the covered rows before `n`, each under its key's hash. */
  ghost predicate Filed(buckets: map<uint64, seq<nat>>, mix: (uint64, uint64) -> uint64, rule: Rule<Value>, rows: seq<Tuple>,
                        cols: seq<nat>, covers: Option<Tuple -> Truth>, n: nat)
    requires n <= |rows| && AllInRange(rows, cols)
  {
    && (forall h: uint64, r: nat :: InBucket(buckets, h, r) ==> r < n && Covered(rows[r], cols, covers))
    && (forall r :: 0 <= r < n && Covered(rows[r], cols, covers) ==> InBucket(buckets, HashKey(mix, rule, KeyOf(rows[r], cols)), r))
  }

  lemma FiledNext(buckets: map<uint64, seq<nat>>, mix: (uint64, uint64) -> uint64, rule: Rule<Value>, rows: seq<Tuple>,
                  cols: seq<nat>, covers: Option<Tuple -> Truth>, n: nat)
    requires n < |rows| && AllInRange(rows, cols) && Filed(buckets, mix, rule, rows, cols, covers, n)
    ensures !Covered(rows[n], cols, covers) ==> Filed(buckets, mix, rule, rows, cols, covers, n + 1)
    ensures var h := HashKey(mix, rule, KeyOf(rows[n], cols));
            Covered(rows[n], cols, covers) ==>
              Filed(buckets[h := (if h in buckets then buckets[h] else []) + [n]], mix, rule, rows, cols, covers, n + 1)
  {
    hide Covered, HashKey;
    var h := HashKey(mix, rule, KeyOf(rows[n], cols));
    var old' := if h in buckets then buckets[h] else [];
    var b := buckets[h := old' + [n]];
    assert b[h][|old'|] == n;
    forall k, r ensures InBucket(b, k, r) <==> InBucket(buckets, k, r) || (k == h && r == n) {
      if k == h && r in old' {
        var i :| 0 <= i < |old'| && old'[i] == r;
        assert b[h][i] == r;
      }
    }
  }

  /** A row found nowhere in its bucket collides with no earlier row. */
  lemma NoCollision(buckets: map<uint64, seq<nat>>, mix: (uint64, uint64) -> uint64, rule: Rule<Value>, rows: seq<Tuple>,
                    cols: seq<nat>, covers: Option<Tuple -> Truth>, n: nat, j: nat)
    requires Lawful(rule) && j < n < |rows| && AllInRange(rows, cols) && Filed(buckets, mix, rule, rows, cols, covers, n)
    requires var h := HashKey(mix, rule, KeyOf(rows[n], cols));
             forall r :: 0 <= r < n && InBucket(buckets, h, r) ==> !Agree(rule, KeyOf(rows[n], cols), KeyOf(rows[r], cols))
    ensures !Collide(rule, rows, cols, covers, n, j)
  {
    hide Agree, HashKey, Lawful;
    if Agree(rule, KeyOf(rows[n], cols), KeyOf(rows[j], cols)) {
      AgreeHash(mix, rule, KeyOf(rows[n], cols), KeyOf(rows[j], cols));
    }
  }

  /** The first row of a bucket that agrees with row `n`. */
  method FindEqual(rule: Rule<Value>, rows: seq<Tuple>, cols: seq<nat>, bucket: seq<nat>, n: nat) returns (found: Option<nat>)
    requires n < |rows| && AllInRange(rows, cols) && forall b :: 0 <= b < |bucket| ==> bucket[b] < |rows|
    ensures found.Some? ==> found.value in bucket && Agree(rule, KeyOf(rows[n], cols), KeyOf(rows[found.value], cols))
    ensures found.None? ==> forall r :: 0 <= r < |rows| && r in bucket ==> !Agree(rule, KeyOf(rows[n], cols), KeyOf(rows[r], cols))
  {
    hide Agree;
    for b := 0 to |bucket|
      invariant forall c :: 0 <= c < b ==> !Agree(rule, KeyOf(rows[n], cols), KeyOf(rows[bucket[c]], cols))
    {
      var eq := KeyEqual(rule, rows[n], rows[bucket[b]], cols);
      if eq { return Some(bucket[b]); }
    }
    return None;
  }

  /** Reports the first row that collides with an earlier one; unique means no two rows collide. An
      error of the condition ends the check. */
  method CheckUniqueOver(mix: (uint64, uint64) -> uint64, rule: Rule<Value>, rows: seq<Tuple>, cols: seq<nat>,
                         covers: Option<Tuple -> Truth>) returns (v: Verdict)
    requires Lawful(rule) && AllInRange(rows, cols)
    ensures v == Unique ==> forall i, j :: 0 <= j < i < |rows| ==> !Collide(rule, rows, cols, covers, i, j)
    ensures v.Violated? ==> v.row < |rows| && exists j :: 0 <= j < v.row && Collide(rule, rows, cols, covers, v.row, j)
    ensures v.Violated? ==> forall i, j :: 0 <= j < i < v.row ==> !Collide(rule, rows, cols, covers, i, j)
    ensures v.Failed? ==> v.row < |rows| && RaisesOn(rows[v.row], cols, covers)
    ensures v.Failed? ==> forall i, j :: 0 <= j < i < v.row ==> !Collide(rule, rows, cols, covers, i, j)
    ensures v.Failed? ==> forall i :: 0 <= i < v.row ==> !RaisesOn(rows[i], cols, covers)
    ensures v.Violated? ==> forall i :: 0 <= i <= v.row ==> !RaisesOn(rows[i], cols, covers)
    ensures v == Unique ==> forall i :: 0 <= i < |rows| ==> !RaisesOn(rows[i], cols, covers)
  {
    hide HashKey, Agree, HasNull, Lawful, Filed;
    var buckets: map<uint64, seq<nat>> := map[];
    assert Filed(buckets, mix, rule, rows, cols, covers, 0) by { NothingFiled(mix, rule, rows, cols, covers); }
    for i := 0 to |rows|
      invariant Filed(buckets, mix, rule, rows, cols, covers, i)
      invariant forall r, j :: 0 <= j < r < i ==> !Collide(rule, rows, cols, covers, r, j)
      invariant forall r :: 0 <= r < i ==> !RaisesOn(rows[r], cols, covers)
    {
      FiledNext(buckets, mix, rule, rows, cols, covers, i);
      var skip := AnyNull(rows[i], cols);
      if !skip && covers.Some? {
        var inside := covers.value(rows[i]);
        if inside == Raises { return Failed(i); }
        skip := inside != True;
      }
      if !skip {
        var sum := HashRow(mix, rule, rows[i], cols);
        var bucket := if sum in buckets then buckets[sum] else [];
        FiledRows(buckets, mix, rule, rows, cols, covers, i, sum);
        var found := FindEqual(rule, rows, cols, bucket, i);
        if found.Some? {
          assert Collide(rule, rows, cols, covers, i, found.value);
          return Violated(i);
        }
        forall j | 0 <= j < i { NoCollision(buckets, mix, rule, rows, cols, covers, i, j); }
        buckets := buckets[sum := bucket + [i]];
      }
    }
    return Unique;
  }

  lemma NothingFiled(mix: (uint64, uint64) -> uint64, rule: Rule<Value>, rows: seq<Tuple>, cols: seq<nat>, covers: Option<Tuple -> Truth>)
    requires AllInRange(rows, cols)
    ensures Filed(map[], mix, rule, rows, cols, covers, 0)
  {}

  lemma FiledRows(buckets: map<uint64, seq<nat>>, mix: (uint64, uint64) -> uint64, rule: Rule<Value>, rows: seq<Tuple>,
                  cols: seq<nat>, covers: Option<Tuple -> Truth>, n: nat, h: uint64)
    requires n <= |rows| && AllInRange(rows, cols) && Filed(buckets, mix, rule, rows, cols, covers, n)
    ensures h in buckets ==> forall b :: 0 <= b < |buckets[h]| ==> buckets[h][b] < n
    ensures h in buckets ==> forall r :: r in buckets[h] ==> r < n && Covered(rows[r], cols, covers)
  {
    if h in buckets {
      assert forall r :: r in buckets[h] ==> InBucket(buckets, h, r);
      assert forall b :: 0 <= b < |buckets[h]| ==> buckets[h][b] in buckets[h];
    }
  }
}
