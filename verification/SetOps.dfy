/** UNION, INTERSECT and EXCEPT as a streaming operator, against multiset algebra. */
module SetOps {
  import opened Values
  import opened Keys
  import opened Operators

  datatype Op = Union | Intersect | Except

  // ---- what the operations mean ----

  /** Whether the next copy of a class is output, when `m` candidates in it came before and the right
      side has `n`. */
  predicate KeepCopy(op: Op, all: bool, m: nat, n: nat) {
    match op
    case Union => all || m == 0
    case Intersect => if all then m < n else n > 0 && m == 0
    case Except => if all then m >= n else n == 0 && m == 0
  }

  predicate Keep<K>(rule: Rule<K>, op: Op, all: bool, before: seq<K>, x: K, right: seq<K>) {
    KeepCopy(op, all, Count(rule, before, x), Count(rule, right, x))
  }

  /** The candidates that are output, in order. */
  function Kept<K>(rule: Rule<K>, op: Op, all: bool, xs: seq<K>, right: seq<K>): seq<K> {
    if xs == [] then []
    else
      var before, x := xs[..|xs| - 1], xs[|xs| - 1];
      Kept(rule, op, all, before, right) + (if Keep(rule, op, all, before, x, right) then [x] else [])
  }

  /** The left rows, then for UNION the right rows. */
  function Candidates<K>(op: Op, left: seq<K>, right: seq<K>): seq<K> {
    if op == Union then left + right else left
  }

  function Output<K>(rule: Rule<K>, op: Op, all: bool, left: seq<K>, right: seq<K>): seq<K> {
    Kept(rule, op, all, Candidates(op, left, right), right)
  }

  function Least(a: nat, b: nat): nat { if a < b then a else b }

  /** How many copies of a class come out when `m` candidates and `n` right rows are in it. */
  function Copies(op: Op, all: bool, m: nat, n: nat): nat {
    match op
    case Union => if all then m else Least(m, 1)
    case Intersect => if all then Least(m, n) else if n > 0 then Least(m, 1) else 0
    case Except => if all then (if m > n then m - n else 0) else if n == 0 then Least(m, 1) else 0
  }

  lemma OneMoreCopy(op: Op, all: bool, m: nat, n: nat)
    ensures Copies(op, all, m + 1, n) == Copies(op, all, m, n) + (if KeepCopy(op, all, m, n) then 1 else 0)
  {}

  lemma {:induction false} KeptCopies<K(!new)>(rule: Rule<K>, op: Op, all: bool, xs: seq<K>, right: seq<K>, k: K)
    requires Lawful(rule)
    ensures Count(rule, Kept(rule, op, all, xs, right), k) == Copies(op, all, Count(rule, xs, k), Count(rule, right, k))
  {
    hide Copies, KeepCopy, Lawful;
    if xs == [] {
      NoCopies(op, all, Count(rule, right, k));
    } else {
      hide Kept;
      var before, x := xs[..|xs| - 1], xs[|xs| - 1];
      KeptCopies(rule, op, all, before, right, k);
      KeptOne(rule, op, all, xs, right, k);
      if rule.same(x, k) {
        CountSame(rule, before, x, k);
        CountSame(rule, right, x, k);
        OneMoreCopy(op, all, Count(rule, before, k), Count(rule, right, k));
      }
    }
  }

  lemma KeptOne<K>(rule: Rule<K>, op: Op, all: bool, xs: seq<K>, right: seq<K>, k: K)
    requires xs != []
    ensures var before, x := xs[..|xs| - 1], xs[|xs| - 1];
            Count(rule, Kept(rule, op, all, xs, right), k)
            == Count(rule, Kept(rule, op, all, before, right), k)
               + (if Keep(rule, op, all, before, x, right) && rule.same(x, k) then 1 else 0)
  {
    hide Keep, Count;
    var kept := Kept(rule, op, all, xs[..|xs| - 1], right);
    CountSnoc(rule, kept, xs[|xs| - 1], k);
    assert kept + [] == kept;
  }

  lemma KeptSnoc<K>(rule: Rule<K>, op: Op, all: bool, before: seq<K>, x: K, right: seq<K>)
    ensures Kept(rule, op, all, before + [x], right)
            == Kept(rule, op, all, before, right) + (if Keep(rule, op, all, before, x, right) then [x] else [])
  {
    hide Keep;
    assert (before + [x])[..|before|] == before;
  }

  lemma NoCopies(op: Op, all: bool, n: nat)
    ensures Copies(op, all, 0, n) == 0
  {}

  /** With m copies of a class on the left and n on the right: UNION ALL yields m + n, INTERSECT ALL
      the lesser, EXCEPT ALL the excess; the distinct forms yield at most one. */
  lemma MultisetAlgebra<K(!new)>(rule: Rule<K>, op: Op, all: bool, left: seq<K>, right: seq<K>, k: K)
    requires Lawful(rule)
    ensures var m, n := Count(rule, left, k), Count(rule, right, k);
            var out := Count(rule, Output(rule, op, all, left, right), k);
            && (all ==> out == match op case Union => m + n case Intersect => (if m < n then m else n) case Except => (if m > n then m - n else 0))
            && (!all ==> out <= 1)
            && (!all ==> (out == 1 <==> match op case Union => m + n > 0 case Intersect => m > 0 && n > 0 case Except => m > 0 && n == 0))
  {
    KeptCopies(rule, op, all, Candidates(op, left, right), right, k);
    CountAppend(rule, left, right, k);
  }

  /** What is output are candidates, in their order, none of them twice. */
  lemma {:induction false} KeptSelects<K>(rule: Rule<K>, op: Op, all: bool, xs: seq<K>, right: seq<K>) returns (at: seq<nat>)
    ensures var out := Kept(rule, op, all, xs, right);
            |at| == |out| && forall i :: 0 <= i < |at| ==> at[i] < |xs| && out[i] == xs[at[i]]
    ensures forall i, j :: 0 <= i < j < |at| ==> at[i] < at[j]
  {
    hide Keep;
    at := [];
    if xs != [] {
      var before := xs[..|xs| - 1];
      at := KeptSelects(rule, op, all, before, right);
      if Keep(rule, op, all, before, xs[|xs| - 1], right) { at := at + [|xs| - 1]; }
    }
  }

  // ---- the operator ----

  /** What the right side still holds of a class, against the candidates considered. */
  function Remaining<K>(rule: Rule<K>, all: bool, considered: seq<K>, right: seq<K>, k: K): Option<nat> {
    var m, n := Count(rule, considered, k), Count(rule, right, k);
    if n == 0 then None else Some(if all then (if n > m then n - m else 0) else n)
  }

  /** Whether the distinct form may output the class at all. */
  predicate Eligible<K>(rule: Rule<K>, op: Op, right: seq<K>, k: K) {
    match op
    case Union => true
    case Intersect => Count(rule, right, k) > 0
    case Except => Count(rule, right, k) == 0
  }

  ghost predicate SeenOk<K>(rule: Rule<K>, op: Op, considered: seq<K>, right: seq<K>, k: K, seen: bool) {
    seen <==> Eligible(rule, op, right, k) && Count(rule, considered, k) > 0
  }

  /** What a count of the rows read so far holds. */
  function Counted<K>(rule: Rule<K>, read: seq<K>, k: K): Option<nat> {
    var n := Count(rule, read, k);
    if n == 0 then None else Some(n)
  }

  lemma CountedOneMore<K>(rule: Rule<K>, read: seq<K>, row: K, k: K)
    ensures Counted(rule, read + [row], k)
            == if rule.same(row, k) then Some((match Counted(rule, read, k) case Some(n) => n case None => 0) + 1) else Counted(rule, read, k)
  {
    CountSnoc(rule, read, row, k);
  }

  lemma CountedStart<K(!new)>(rule: Rule<K>, all: bool, right: seq<K>)
    ensures forall k :: Counted(rule, [], k) == None
    ensures forall k :: Remaining(rule, all, [], right, k) == Counted(rule, right, k)
  {}

  lemma NothingSeen<K(!new)>(rule: Rule<K>, op: Op, right: seq<K>)
    ensures forall k :: SeenOk(rule, op, [], right, k, false)
  {}

  lemma RemainingTaken<K(!new)>(rule: Rule<K>, considered: seq<K>, right: seq<K>, row: K, k: K)
    requires Lawful(rule)
    ensures var r := Remaining(rule, true, considered, right, row);
            Remaining(rule, true, considered + [row], right, k)
            == if r.Some? && r.value > 0 && rule.same(row, k) then Some(r.value - 1) else Remaining(rule, true, considered, right, k)
  {
    hide Count, Lawful;
    CountSnoc(rule, considered, row, k);
    if rule.same(row, k) {
      CountSame(rule, considered, row, k);
      CountSame(rule, right, row, k);
    }
  }

  lemma SeenAdded<K(!new)>(rule: Rule<K>, op: Op, considered: seq<K>, right: seq<K>, row: K, k: K, seen: bool)
    requires Lawful(rule) && SeenOk(rule, op, considered, right, k, seen)
    ensures SeenOk(rule, op, considered + [row], right, k, seen || (Eligible(rule, op, right, row) && rule.same(row, k)))
  {
    hide Count, Lawful;
    CountSnoc(rule, considered, row, k);
    if rule.same(row, k) { CountSame(rule, right, row, k); }
  }

  class SetOp<K(!new)> {
    const rule: Rule<K>
    const op: Op
    const all: bool
    const left: Input<K>
    const right: Input<K>
    const seen: KeySet<K>
    var counts: KeyCounts<K>
    var loaded: bool
    var draining: bool
    /** For proofs: both inputs' rows, and the candidates considered so far. */
    ghost const leftRows: seq<K>
    ghost const rightRows: seq<K>
    ghost var considered: seq<K>

    ghost function Emitted(): seq<K>
      reads this
    {
      Kept(rule, op, all, considered, rightRows)
    }

    /** What the two tables know is what the candidates considered so far left behind. */
    ghost predicate BookOk()
      reads `considered, `counts, seen, counts
    {
      && Lawful(rule) && seen.Valid() && counts.Valid() && seen.rule == rule && counts.rule == rule
      && (op != Union ==> forall k :: counts.Held(k) == Remaining(rule, all, considered, rightRows, k))
      && (!all ==> forall k :: SeenOk(rule, op, considered, rightRows, k, seen.Contains(k)))
    }

    /** The inputs still hold the candidates after `taken`. */
    ghost predicate StreamOk(taken: seq<K>)
      reads `draining, left, right
    {
      && left != right
      && Candidates(op, leftRows, rightRows) == taken + left.rest + (if op == Union then right.rest else [])
      && (draining ==> left.rest == [])
    }

    ghost predicate Valid()
      reads this, left, right, seen, counts
    {
      && StreamOk(considered)
      && (draining ==> !left.fails) && (op != Union && loaded ==> !right.fails)
      && (op == Union || loaded ==> BookOk())
      && (op != Union && !loaded ==>
            right.rest == rightRows && considered == [] && Lawful(rule) && seen.Valid() && seen.rule == rule && forall k :: !seen.Contains(k))
    }

    constructor (rule: Rule<K>, op: Op, all: bool, left: Input<K>, right: Input<K>)
      requires Lawful(rule) && left != right
      ensures Valid() && this.op == op && this.all == all && this.rule == rule && this.left == left && this.right == right
      ensures leftRows == left.rest && rightRows == right.rest && considered == []
      ensures fresh(seen) && fresh(counts)
    {
      this.rule, this.op, this.all, this.left, this.right := rule, op, all, left, right;
      leftRows, rightRows, considered := left.rest, right.rest, [];
      loaded, draining := false, false;
      seen := new KeySet(rule);
      counts := new KeyCounts(rule);
    }

    /** Reads the whole right side into counts. */
    method LoadRight() returns (r: Result<(), ExecError>)
      requires Valid() && op != Union && !loaded
      modifies this`counts, this`loaded, right
      ensures r.Ok? ==> Valid() && loaded && fresh(counts) && !right.fails
      ensures r.Err? ==> right.fails && fresh(counts)
    {
      hide Count, Counted, Remaining, SeenOk, Eligible, KeySet.Contains, KeyCounts.Held, KeyCounts.Valid, KeySet.Valid, Lawful;
      CountedStart(rule, all, rightRows);
      counts := new KeyCounts(rule);
      ghost var read: seq<K> := [];

      while true
        invariant read + right.rest == rightRows && counts.Valid() && counts.rule == rule && fresh(counts)
        invariant forall k :: counts.Held(k) == Counted(rule, read, k)
        invariant unchanged(left) && unchanged(seen) && !loaded && !draining == !old(draining)
        decreases |right.rest|
      {
        var row := right.Next();
        if row.Err? { return Err(row.error); }
        if row.value.None? { break; }
        forall k { CountedOneMore(rule, read, row.value.value, k); }
        counts.Add(row.value.value);
        read := read + [row.value.value];
      }
      assert read == rightRows;
      assert forall k :: SeenOk(rule, op, [], rightRows, k, seen.Contains(k)) by { NothingSeen(rule, op, rightRows); }
      loaded := true;
      return Ok(());
    }

    /** The next row from whichever side is still producing. */
    method NextCandidate() returns (r: Result<Option<K>, ExecError>)
      requires StreamOk(considered)
      modifies this`draining, left, right
      ensures r.Err? ==> left.fails || (op == Union && right.fails)
      ensures draining ==> old(draining) || !left.fails
      ensures r.Ok? && r.value.None? ==> draining && (op == Union ==> !right.fails)
      ensures r.Ok? && r.value.None? ==> StreamOk(considered) && considered == Candidates(op, leftRows, rightRows)
      ensures r.Ok? && r.value.Some? ==> StreamOk(considered + [r.value.value])
      ensures r.Ok? && r.value.Some? ==> |left.rest| + |right.rest| < old(|left.rest| + |right.rest|)
    {
      if !draining {
        var row := left.Next();
        if row.Err? { return row; }
        if row.value.Some? { return row; }
        draining := true;
      }
      if op != Union { return Ok(None); }
      r := right.Next();
    }

    /** Adds a row to `seen` if its class may be output, reporting whether it is new. */
    method AddIf(eligible: bool, row: K) returns (keep: bool)
      requires seen.Valid() && seen.rule == rule
      modifies seen
      ensures seen.Valid() && keep == (eligible && !old(seen.Contains(row)))
      ensures forall k :: seen.Contains(k) <==> old(seen.Contains(k)) || (eligible && rule.same(row, k))
    {
      if !eligible { return false; }
      keep := seen.Add(row);
    }

    /** Whether a candidate belongs in the output; it is considered from now on. */
    method KeepRow(row: K) returns (keep: bool)
      requires BookOk()
      modifies this`considered, seen, counts
      ensures keep <==> Keep(rule, op, all, old(considered), row, rightRows)
      ensures BookOk() && considered == old(considered) + [row]
    {
      hide Count, Lawful, KeySet.Valid, KeySet.Contains, KeyCounts.Valid, KeyCounts.Held;
      ghost var before := considered;
      considered := considered + [row];
      forall k { RemainingTaken(rule, before, rightRows, row, k); }
      if !all {
        forall k ensures SeenOk(rule, op, considered, rightRows, k, seen.Contains(k) || (Eligible(rule, op, rightRows, row) && rule.same(row, k))) {
          SeenAdded(rule, op, before, rightRows, row, k, seen.Contains(k));
        }
        assert SeenOk(rule, op, before, rightRows, row, seen.Contains(row));
      }
      match op {
        case Union =>
          if all { return true; }
          keep := AddIf(true, row);
        case Intersect =>
          if all {
            keep := counts.Take(row);
          } else {
            keep := counts.Has(row);
            keep := AddIf(keep, row);
          }
        case Except =>
          if all {
            var taken := counts.Take(row);
            return !taken;
          } else {
            keep := counts.Has(row);
            keep := AddIf(!keep, row);
          }
      }
    }

    /** Emits the next row of the output, in order, and ends after the last. */
    method Next() returns (r: Result<Option<K>, ExecError>)
      requires Valid()
      modifies this`counts, this`loaded, this`draining, this`considered, left, right, seen, counts
      ensures r.Ok? ==> Valid()
      ensures r.Ok? && r.value.Some? ==> Emitted() == old(Emitted()) + [r.value.value]
      ensures r.Ok? && r.value.None? ==> Emitted() == old(Emitted()) == Output(rule, op, all, leftRows, rightRows)
      ensures r.Ok? && r.value.None? ==> !left.fails && !right.fails
      ensures r.Ok? && op != Union ==> !right.fails
      ensures r.Err? ==> left.fails || right.fails
      ensures fresh({counts} - old({counts}))
    {
      hide BookOk, StreamOk, Count, Kept, Keep, Lawful, KeySet.Valid, KeyCounts.Valid;
      if op != Union && !loaded {
        var load := LoadRight();
        if load.Err? { return Err(load.error); }
      }
      while true
        invariant StreamOk(considered) && BookOk() && (op == Union || loaded)
        invariant (draining ==> !left.fails) && (op != Union ==> !right.fails)
        invariant Emitted() == old(Emitted()) && fresh({counts} - old({counts}))
        decreases |left.rest| + |right.rest|
      {
        var row := NextCandidate();
        if row.Err? || row.value.None? { return row; }
        ghost var before := considered;
        var keep := KeepRow(row.value.value);
        KeptSnoc(rule, op, all, before, row.value.value, rightRows);
        if keep { return row; }
      }
    }
  }
}
