/** Hash sets and hash counts of keys under an equality that the hash respects. */
module Keys {
  import opened Values

  /** The equality and the hash a container is built on. */
  datatype Rule<!K> = Rule(same: (K, K) -> bool, hash: K -> uint64)

  ghost predicate Lawful<K(!new)>(rule: Rule<K>) {
    && (forall a :: rule.same(a, a))
    && (forall a, b :: rule.same(a, b) ==> rule.same(b, a) && rule.hash(a) == rule.hash(b))
    && (forall a, b, c :: rule.same(a, b) && rule.same(b, c) ==> rule.same(a, c))
  }

  /** How many of `xs` are in the class of `k`. */
  function Count<K>(rule: Rule<K>, xs: seq<K>, k: K): nat {
    if xs == [] then 0 else Count(rule, xs[..|xs| - 1], k) + (if rule.same(xs[|xs| - 1], k) then 1 else 0)
  }

  /** A count is the number of places that hold the class. */
  lemma {:induction false} CountIsPlaces<K>(rule: Rule<K>, xs: seq<K>, k: K, places: set<nat>)
    requires forall i: nat :: i in places <==> i < |xs| && rule.same(xs[i], k)
    ensures Count(rule, xs, k) == |places|
  {
    if xs == [] {
      assert places == {};
    } else {
      var n := |xs| - 1;
      assert forall i: nat :: i in places - {n} <==> i < n && rule.same(xs[..n][i], k);
      CountIsPlaces(rule, xs[..n], k, places - {n});
      assert rule.same(xs[n], k) ==> places == (places - {n}) + {n};
      assert !rule.same(xs[n], k) ==> places == places - {n};
    }
  }

  lemma {:induction false} CountSame<K(!new)>(rule: Rule<K>, xs: seq<K>, k: K, l: K)
    requires Lawful(rule) && rule.same(k, l)
    ensures Count(rule, xs, k) == Count(rule, xs, l)
  {
    if xs != [] { CountSame(rule, xs[..|xs| - 1], k, l); }
  }

  lemma {:induction false} CountAppend<K>(rule: Rule<K>, xs: seq<K>, ys: seq<K>, k: K)
    ensures Count(rule, xs + ys, k) == Count(rule, xs, k) + Count(rule, ys, k)
  {
    if ys == [] {
      assert xs + ys == xs;
    } else {
      assert (xs + ys)[..|xs + ys| - 1] == xs + ys[..|ys| - 1];
      CountAppend(rule, xs, ys[..|ys| - 1], k);
    }
  }

  lemma CountSnoc<K>(rule: Rule<K>, xs: seq<K>, x: K, k: K)
    ensures Count(rule, xs + [x], k) == Count(rule, xs, k) + (if rule.same(x, k) then 1 else 0)
  {
    assert (xs + [x])[..|xs|] == xs;
  }

  /** A bucket holds each class at most once. */
  ghost predicate OncePerClass<K>(rule: Rule<K>, bucket: seq<Entry<K>>) {
    forall i, j :: 0 <= i < j < |bucket| ==> !rule.same(bucket[i].key, bucket[j].key)
  }

  datatype Entry<K> = Entry(key: K, n: nat)

  /** The count a bucket holds for a key, if it holds its class. */
  function Lookup<K>(rule: Rule<K>, bucket: seq<Entry<K>>, k: K): Option<nat> {
    if bucket == [] then None
    else if rule.same(bucket[0].key, k) then Some(bucket[0].n) else Lookup(rule, bucket[1..], k)
  }

  lemma {:induction false} LookupAt<K(!new)>(rule: Rule<K>, bucket: seq<Entry<K>>, i: nat, k: K)
    requires Lawful(rule) && OncePerClass(rule, bucket) && i < |bucket| && rule.same(bucket[i].key, k)
    ensures Lookup(rule, bucket, k) == Some(bucket[i].n)
  {
    if i > 0 {
      assert !rule.same(bucket[0].key, bucket[i].key);
      LookupAt(rule, bucket[1..], i - 1, k);
    }
  }

  lemma {:induction false} LookupNone<K>(rule: Rule<K>, bucket: seq<Entry<K>>, k: K)
    requires forall i :: 0 <= i < |bucket| ==> !rule.same(bucket[i].key, k)
    ensures Lookup(rule, bucket, k) == None
  {
    if bucket != [] { LookupNone(rule, bucket[1..], k); }
  }

  /** A class with no entry has none under any of its keys. */
  lemma LookupMissing<K(!new)>(rule: Rule<K>, bucket: seq<Entry<K>>, key: K, k: K)
    requires Lawful(rule) && rule.same(key, k) && forall i :: 0 <= i < |bucket| ==> !rule.same(bucket[i].key, key)
    ensures Lookup(rule, bucket, k) == None
  {
    assert rule.same(k, key);
    forall i | 0 <= i < |bucket| ensures !rule.same(bucket[i].key, k) {}
    LookupNone(rule, bucket, k);
  }

  lemma {:induction false} LookupSome<K>(rule: Rule<K>, bucket: seq<Entry<K>>, k: K)
    requires Lookup(rule, bucket, k).Some?
    ensures exists i :: 0 <= i < |bucket| && rule.same(bucket[i].key, k)
  {
    if !rule.same(bucket[0].key, k) {
      LookupSome(rule, bucket[1..], k);
      var i :| 0 <= i < |bucket| - 1 && rule.same(bucket[1..][i].key, k);
      assert rule.same(bucket[i + 1].key, k);
    }
  }

  /** Changing one entry's count changes what its class looks up, and nothing else. */
  lemma LookupUpdated<K(!new)>(rule: Rule<K>, bucket: seq<Entry<K>>, i: nat, n: nat, k: K)
    requires Lawful(rule) && OncePerClass(rule, bucket) && i < |bucket|
    ensures OncePerClass(rule, bucket[i := Entry(bucket[i].key, n)])
    ensures Lookup(rule, bucket[i := Entry(bucket[i].key, n)], k)
            == if rule.same(bucket[i].key, k) then Some(n) else Lookup(rule, bucket, k)
  {
    var b := bucket[i := Entry(bucket[i].key, n)];
    assert forall j :: 0 <= j < |b| ==> b[j].key == bucket[j].key;
    if j :| 0 <= j < |bucket| && rule.same(bucket[j].key, k) {
      LookupAt(rule, bucket, j, k);
      LookupAt(rule, b, j, k);
      assert j != i ==> !rule.same(bucket[i].key, bucket[j].key) && !rule.same(bucket[j].key, bucket[i].key);
    } else {
      LookupNone(rule, bucket, k);
      LookupNone(rule, b, k);
    }
  }

  lemma LookupAppended<K(!new)>(rule: Rule<K>, bucket: seq<Entry<K>>, e: Entry<K>, k: K)
    requires Lawful(rule) && OncePerClass(rule, bucket)
    requires forall i :: 0 <= i < |bucket| ==> !rule.same(bucket[i].key, e.key)
    ensures OncePerClass(rule, bucket + [e])
    ensures Lookup(rule, bucket + [e], k) == if rule.same(e.key, k) then Some(e.n) else Lookup(rule, bucket, k)
  {
    var b := bucket + [e];
    if rule.same(e.key, k) {
      LookupAt(rule, b, |bucket|, k);
    } else if j :| 0 <= j < |bucket| && rule.same(bucket[j].key, k) {
      LookupAt(rule, bucket, j, k);
      LookupAt(rule, b, j, k);
    } else {
      LookupNone(rule, bucket, k);
      LookupNone(rule, b, k);
    }
  }

  /** A hash table from key classes to counts. */
  class KeyCounts<K(!new)> {
    const rule: Rule<K>
    var buckets: map<uint64, seq<Entry<K>>>

    ghost predicate Valid()
      reads this
    {
      && Lawful(rule)
      && forall h :: h in buckets ==> OncePerClass(rule, buckets[h])
                                      && forall i :: 0 <= i < |buckets[h]| ==> rule.hash(buckets[h][i].key) == h
    }

    function Bucket(h: uint64): seq<Entry<K>>
      reads this
    {
      if h in buckets then buckets[h] else []
    }

    /** The count held for a key's class; None for a class never added. */
    function Held(k: K): Option<nat>
      reads this
    {
      Lookup(rule, Bucket(rule.hash(k)), k)
    }

    constructor (rule: Rule<K>)
      requires Lawful(rule)
      ensures Valid() && this.rule == rule && forall k :: Held(k) == None
    {
      this.rule, buckets := rule, map[];
    }

    /** Counts one more of the key's class. */
    method Add(key: K)
      requires Valid()
      modifies this
      ensures Valid()
      ensures forall k :: Held(k) == if rule.same(key, k) then Some((match old(Held(k)) case Some(n) => n case None => 0) + 1) else old(Held(k))
    {
      var sum := rule.hash(key);
      var bucket := Bucket(sum);
      for i := 0 to |bucket|
        invariant unchanged(this) && forall j :: 0 <= j < i ==> !rule.same(bucket[j].key, key)
      {
        if rule.same(bucket[i].key, key) {
          forall k { LookupUpdated(rule, bucket, i, bucket[i].n + 1, k); }
          forall k | rule.same(bucket[i].key, k) { LookupAt(rule, bucket, i, k); }
          buckets := buckets[sum := bucket[i := Entry(bucket[i].key, bucket[i].n + 1)]];
          return;
        }
      }
      forall k { LookupAppended(rule, bucket, Entry(key, 1), k); }
      forall k | rule.same(key, k) { LookupMissing(rule, bucket, key, k); }
      buckets := buckets[sum := bucket + [Entry(key, 1)]];
    }

    /** Removes one of the key's class, reporting whether there was one. */
    method Take(key: K) returns (ok: bool)
      requires Valid()
      modifies this
      ensures Valid() && (ok <==> old(Held(key)).Some? && old(Held(key)).value > 0)
      ensures forall k :: Held(k) == if ok && rule.same(key, k) then Some(old(Held(key)).value - 1) else old(Held(k))
    {
      var sum := rule.hash(key);
      var bucket := Bucket(sum);
      for i := 0 to |bucket|
        invariant unchanged(this)
        invariant forall j :: 0 <= j < i ==> !(rule.same(bucket[j].key, key) && bucket[j].n > 0)
      {
        if rule.same(bucket[i].key, key) && bucket[i].n > 0 {
          LookupAt(rule, bucket, i, key);
          forall k { LookupUpdated(rule, bucket, i, bucket[i].n - 1, k); }
          buckets := buckets[sum := bucket[i := Entry(bucket[i].key, bucket[i].n - 1)]];
          return true;
        }
      }
      if Lookup(rule, bucket, key).Some? {
        LookupSome(rule, bucket, key);
        ghost var i :| 0 <= i < |bucket| && rule.same(bucket[i].key, key);
        LookupAt(rule, bucket, i, key);
      }
      return false;
    }

    /** Whether the key's class was ever added, however many are left. */
    method Has(key: K) returns (ok: bool)
      requires Valid()
      ensures ok <==> Held(key).Some?
    {
      var bucket := Bucket(rule.hash(key));
      for i := 0 to |bucket|
        invariant forall j :: 0 <= j < i ==> !rule.same(bucket[j].key, key)
      {
        if rule.same(bucket[i].key, key) {
          LookupAt(rule, bucket, i, key);
          return true;
        }
      }
      LookupNone(rule, bucket, key);
      return false;
    }
  }

  /** A hash set of key classes. */
  class KeySet<K(!new)> {
    const rule: Rule<K>
    var buckets: map<uint64, seq<K>>

    ghost predicate Valid()
      reads this
    {
      Lawful(rule) && forall h :: h in buckets ==> forall i :: 0 <= i < |buckets[h]| ==> rule.hash(buckets[h][i]) == h
    }

    function Bucket(h: uint64): seq<K>
      reads this
    {
      if h in buckets then buckets[h] else []
    }

    ghost predicate Contains(k: K)
      reads this
    {
      exists i :: 0 <= i < |Bucket(rule.hash(k))| && rule.same(Bucket(rule.hash(k))[i], k)
    }

    constructor (rule: Rule<K>)
      requires Lawful(rule)
      ensures Valid() && this.rule == rule && forall k :: !Contains(k)
    {
      this.rule, buckets := rule, map[];
    }

    /** Records a key and reports whether its class was not already present. */
    method Add(key: K) returns (fresh': bool)
      requires Valid()
      modifies this
      ensures Valid() && fresh' == !old(Contains(key))
      ensures forall k :: Contains(k) <==> old(Contains(k)) || rule.same(key, k)
    {
      var sum := rule.hash(key);
      var bucket := Bucket(sum);
      for i := 0 to |bucket|
        invariant unchanged(this) && forall j :: 0 <= j < i ==> !rule.same(bucket[j], key)
      {
        if rule.same(bucket[i], key) {
          assert forall k :: rule.same(key, k) ==> rule.same(bucket[i], k);
          return false;
        }
      }
      buckets := buckets[sum := bucket + [key]];
      forall k ensures Contains(k) <==> old(Contains(k)) || rule.same(key, k) {
        if rule.same(key, k) { assert Bucket(rule.hash(k))[|bucket|] == key; }
        if old(Contains(k)) {
          var i :| 0 <= i < |old(Bucket(rule.hash(k)))| && rule.same(old(Bucket(rule.hash(k)))[i], k);
          assert Bucket(rule.hash(k))[i] == old(Bucket(rule.hash(k)))[i];
        }
        if Contains(k) {
          var i :| 0 <= i < |Bucket(rule.hash(k))| && rule.same(Bucket(rule.hash(k))[i], k);
          if i < |old(Bucket(rule.hash(k)))| { assert Bucket(rule.hash(k))[i] == old(Bucket(rule.hash(k)))[i]; }
        }
      }
      return true;
    }
  }
}
