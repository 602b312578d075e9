/** sum() over integers and exact numerics: an int64 running total that moves to decimals when the
    first numeric arrives. */
module Sums {
  import opened Values
  import opened Digits
  import opened Decimals
  import opened Numerics

  predicate AllExact(vals: seq<Value>) { forall i :: 0 <= i < |vals| ==> Exact(vals[i]) }

  function Term(v: Value): real
    requires Exact(v)
  {
    if v.k == KindNull then 0.0 else Number(v)
  }

  /** The sum of the numbers denoted, NULLs aside. */
  function Total(vals: seq<Value>): real
    requires AllExact(vals)
  {
    if vals == [] then 0.0 else Total(vals[..|vals| - 1]) + Term(vals[|vals| - 1])
  }

  predicate HasNumeric(vals: seq<Value>) { exists i :: 0 <= i < |vals| && vals[i].k == KindNumeric }

  predicate HasValue(vals: seq<Value>) { exists i :: 0 <= i < |vals| && vals[i].k != KindNull }

  /** The widest scale among the numerics; integers count as nought. */
  function MaxScale(vals: seq<Value>): nat {
    if vals == [] then 0
    else
      var rest, v := MaxScale(vals[..|vals| - 1]), vals[|vals| - 1];
      var s := if v.k == KindNumeric then AsDecimal(v).scale else 0;
      if rest < s then s else rest
  }

  /** The sum of the integers that came before the first numeric. */
  function LeadSum(vals: seq<Value>): int {
    if vals == [] then 0
    else
      var before, v := vals[..|vals| - 1], vals[|vals| - 1];
      LeadSum(before) + (if v.k == KindInt && !HasNumeric(before) then ToSigned(v.n) else 0)
  }

  /** What the accumulator's total is off by: the leading integers are added in one word. */
  function Lost(vals: seq<Value>): real { LeadSum(vals) as real - Wrap(LeadSum(vals)) as real }

  /** What sum() should return: NULL over no values, an integer over integers, else the decimal total
      at the widest scale. */
  predicate IsTotal(r: Value, vals: seq<Value>)
    requires AllExact(vals)
  {
    if !HasValue(vals) then r == NULL
    else if !HasNumeric(vals) then r.k == KindInt && r == Value(KindInt, 0, r.n, []) && ToSigned(r.n) as real == Total(vals)
    else ValidNumeric(r) && Val(AsDecimal(r)) == Total(vals) && AsDecimal(r).scale == MaxScale(vals)
  }

  predicate IntegerOk(i: int64, vals: seq<Value>)
    requires AllExact(vals)
  {
    i == Wrap(LeadSum(vals)) && Total(vals) == LeadSum(vals) as real
  }

  predicate DecimalOk(dec: Value, vals: seq<Value>)
    requires AllExact(vals)
  {
    ValidNumeric(dec) && AsDecimal(dec).scale == MaxScale(vals) && Val(AsDecimal(dec)) == Total(vals) - Lost(vals)
  }

  class SumAgg {
    var i: int64
    var dec: Value
    var exact: bool
    var any: bool
    /** For proofs: everything added so far. */
    ghost var seen: seq<Value>

    ghost predicate Valid()
      reads this
    {
      && AllExact(seen) && (any <==> HasValue(seen)) && (exact <==> HasNumeric(seen))
      && (if exact then DecimalOk(dec, seen) else IntegerOk(i, seen))
    }

    constructor ()
      ensures Valid() && seen == []
    {
      i, dec, exact, any, seen := 0, NULL, false, false, [];
    }

    method Add(v: Value)
      requires Valid() && Exact(v)
      modifies this
      ensures Valid() && seen == old(seen) + [v]
    {
      hide DecimalOk, IntegerOk, ValidNumeric, AsDecimal, Numeric, Val, Decimals.Add, Total, MaxScale, LeadSum, HasNumeric, HasValue;
      ghost var before := seen;
      Grown(before, v);
      seen := seen + [v];
      if v.k == KindNull {
        NullAdds(before, v, i, dec);
        return;
      }
      any := true;
      if exact {
        DecimalAdds(before, v, dec);
        dec := AddNumeric(dec, ExactNumeric(v));
      } else if v.k == KindNumeric {
        exact := true;
        FirstDecimal(before, v, i);
        dec := AddNumeric(ExactNumeric(IntValue(i)), v);
      } else {
        IntegerAdds(before, v, i);
        i := Wrap(i + ToSigned(v.n));
      }
    }

    /** The total is the true one if and only if the integers before the first numeric sum to a number
        that fits a word, whatever their partial sums did. */
    method Result() returns (r: Value)
      requires Valid()
      ensures IsTotal(r, seen) <==> FitsInt64(LeadSum(seen))
    {
      hide Val, AsDecimal, ValidNumeric, Total, LeadSum;
      NothingLost(seen);
      if !any { return NULL; }
      if exact { return dec; }
      SignedOfWord(i);
      return IntValue(i);
    }
  }

  lemma NothingLost(vals: seq<Value>)
    ensures Lost(vals) == 0.0 <==> FitsInt64(LeadSum(vals))
    ensures !HasValue(vals) ==> LeadSum(vals) == 0
  {
    if !HasValue(vals) { NoLead(vals); }
    assert Lost(vals) == (LeadSum(vals) - Wrap(LeadSum(vals))) as real;
  }

  lemma {:induction false} NoLead(vals: seq<Value>)
    requires !HasValue(vals)
    ensures LeadSum(vals) == 0
  {
    if vals != [] {
      assert vals[|vals| - 1].k == KindNull;
      assert forall i :: 0 <= i < |vals| - 1 ==> vals[..|vals| - 1][i] == vals[i];
      NoLead(vals[..|vals| - 1]);
    }
  }

  lemma WrapSum(n: int, t: int)
    ensures Wrap(Wrap(n) + t) == Wrap(n + t)
  {}

  lemma NullAdds(vals: seq<Value>, v: Value, i: int64, dec: Value)
    requires AllExact(vals) && v.k == KindNull
    ensures AllExact(vals + [v])
    ensures IntegerOk(i, vals) ==> IntegerOk(i, vals + [v])
    ensures DecimalOk(dec, vals) ==> DecimalOk(dec, vals + [v])
  {
    hide ValidNumeric, AsDecimal, Val, Total, MaxScale, LeadSum;
    Grown(vals, v);
  }

  lemma DecimalAdds(vals: seq<Value>, v: Value, dec: Value)
    requires AllExact(vals) && Exact(v) && v.k != KindNull && DecimalOk(dec, vals) && HasNumeric(vals)
    ensures AllExact(vals + [v]) && ValidNumeric(ExactNumeric(v)) && ValidNumeric(dec)
    ensures DecimalOk(Numeric(Decimals.Add(AsDecimal(dec), AsDecimal(ExactNumeric(v)))), vals + [v])
  {
    hide ValidNumeric, AsDecimal, Numeric, Val, Total, MaxScale, LeadSum, HasNumeric, Decimals.Add;
    Grown(vals, v);
    ExactNumericSame(v);
    NumericScale(v);
    TotalOf(dec, ExactNumeric(v));
  }

  lemma NumericScale(v: Value)
    requires Exact(v) && v.k != KindNull
    ensures AsDecimal(ExactNumeric(v)).scale == if v.k == KindNumeric then AsDecimal(v).scale else 0
  {}

  lemma FirstDecimal(vals: seq<Value>, v: Value, i: int64)
    requires AllExact(vals) && Exact(v) && v.k == KindNumeric && IntegerOk(i, vals) && !HasNumeric(vals)
    ensures AllExact(vals + [v]) && ValidNumeric(ExactNumeric(IntValue(i))) && ValidNumeric(v)
    ensures DecimalOk(Numeric(Decimals.Add(AsDecimal(ExactNumeric(IntValue(i))), AsDecimal(v))), vals + [v])
  {
    hide ValidNumeric, AsDecimal, Numeric, Val, Total, MaxScale, LeadSum, HasNumeric, Decimals.Add, Wrap;
    Grown(vals, v);
    ExactNumericSame(IntValue(i));
    SignedOfWord(i);
    NumericScale(IntValue(i));
    NoScaleYet(vals);
    TotalOf(ExactNumeric(IntValue(i)), v);
  }

  lemma IntegerAdds(vals: seq<Value>, v: Value, i: int64)
    requires AllExact(vals) && Exact(v) && v.k != KindNull && v.k != KindNumeric && IntegerOk(i, vals) && !HasNumeric(vals)
    ensures AllExact(vals + [v]) && v.k == KindInt
    ensures IntegerOk(Wrap(i + ToSigned(v.n)), vals + [v])
  {
    hide Val, AsDecimal, Numeric, Total, MaxScale, LeadSum, HasNumeric, Wrap;
    Grown(vals, v);
    WrapSum(LeadSum(vals), ToSigned(v.n));
    assert (LeadSum(vals) + ToSigned(v.n)) as real == LeadSum(vals) as real + ToSigned(v.n) as real;
  }

  /** One more value grows each measure by its own share. */
  lemma Grown(vals: seq<Value>, v: Value)
    requires AllExact(vals) && Exact(v)
    ensures AllExact(vals + [v]) && Total(vals + [v]) == Total(vals) + Term(v)
    ensures HasNumeric(vals + [v]) <==> HasNumeric(vals) || v.k == KindNumeric
    ensures HasValue(vals + [v]) <==> HasValue(vals) || v.k != KindNull
    ensures var s: nat := if v.k == KindNumeric then AsDecimal(v).scale else 0;
            MaxScale(vals + [v]) == if MaxScale(vals) < s then s else MaxScale(vals)
    ensures LeadSum(vals + [v]) == LeadSum(vals) + (if v.k == KindInt && !HasNumeric(vals) then ToSigned(v.n) else 0)
  {
    hide ValidNumeric, AsDecimal, Number, ToSigned;
    var all := vals + [v];
    assert all[..|vals|] == vals && all[|vals|] == v;
    if HasNumeric(vals) { var i :| 0 <= i < |vals| && vals[i].k == KindNumeric; assert all[i] == vals[i]; }
    if HasValue(vals) { var i :| 0 <= i < |vals| && vals[i].k != KindNull; assert all[i] == vals[i]; }
  }

  lemma {:induction false} NoScaleYet(vals: seq<Value>)
    requires !HasNumeric(vals)
    ensures MaxScale(vals) == 0
  {
    if vals != [] {
      assert vals[|vals| - 1].k != KindNumeric;
      assert forall i :: 0 <= i < |vals| - 1 ==> vals[..|vals| - 1][i] == vals[i];
      NoScaleYet(vals[..|vals| - 1]);
    }
  }

  lemma TotalOf(a: Value, b: Value)
    requires ValidNumeric(a) && ValidNumeric(b)
    ensures var r := Numeric(Decimals.Add(AsDecimal(a), AsDecimal(b)));
            && ValidNumeric(r) && Val(AsDecimal(r)) == Val(AsDecimal(a)) + Val(AsDecimal(b))
            && AsDecimal(r).scale == Common(AsDecimal(a), AsDecimal(b))
  {
    hide AsDecimal, Numeric, Rescale, Val;
    AddIsExact(AsDecimal(a), AsDecimal(b));
    NumericReads(Decimals.Add(AsDecimal(a), AsDecimal(b)));
  }

  // ---- the order of the input does not matter ----

  lemma {:induction false} TotalAppend(a: seq<Value>, b: seq<Value>)
    requires AllExact(a) && AllExact(b)
    ensures AllExact(a + b) && Total(a + b) == Total(a) + Total(b)
    ensures MaxScale(a + b) == if MaxScale(a) < MaxScale(b) then MaxScale(b) else MaxScale(a)
  {
    hide Exact, Number, AsDecimal;
    if b == [] {
      assert a + b == a;
    } else {
      assert (a + b)[..|a + b| - 1] == a + b[..|b| - 1];
      TotalAppend(a, b[..|b| - 1]);
      assert forall i :: |a| <= i < |a + b| ==> (a + b)[i] == b[i - |a|];
    }
  }

  /** Totals and scales depend only on which values there are. */
  lemma {:induction false} TotalOfSame(a: seq<Value>, b: seq<Value>)
    requires AllExact(a) && AllExact(b) && multiset(a) == multiset(b)
    ensures Total(a) == Total(b) && MaxScale(a) == MaxScale(b)
    decreases |a|
  {
    hide Exact, Number, AsDecimal;
    if a == [] {
      assert |b| == |multiset(b)| == 0;
    } else {
      var n := |a| - 1;
      var left, right := RemoveOne(a, b);
      ExactParts(left, [a[n]], right);
      TotalOfSame(a[..n], left + right);
      assert a == a[..n] + [a[n]];
      TotalAppend(left, right);
      TotalAppend(left, [a[n]]);
      TotalAppend(left + [a[n]], right);
      TotalAppend(a[..n], [a[n]]);
    }
  }

  lemma ExactParts(left: seq<Value>, mid: seq<Value>, right: seq<Value>)
    requires AllExact(left + mid + right)
    ensures AllExact(left) && AllExact(mid) && AllExact(right) && AllExact(left + right)
  {
    hide Exact;
    var all := left + mid + right;
    assert forall i :: 0 <= i < |left| ==> left[i] == all[i];
    assert forall i :: 0 <= i < |mid| ==> mid[i] == all[|left| + i];
    assert forall i :: 0 <= i < |right| ==> right[i] == all[|left| + |mid| + i];
  }

  lemma RemoveOne(a: seq<Value>, b: seq<Value>) returns (left: seq<Value>, right: seq<Value>)
    requires a != [] && multiset(a) == multiset(b)
    ensures b == left + [a[|a| - 1]] + right && multiset(a[..|a| - 1]) == multiset(left + right)
  {
    var init, v := a[..|a| - 1], a[|a| - 1];
    assert a == init + [v];
    assert v in multiset(a);
    var j :| 0 <= j < |b| && b[j] == v;
    left, right := b[..j], b[j + 1..];
    assert b == left + [v] + right;
    Parts(init, v, []);
    Parts(left, v, right);
    assert init + [] == init && init + [v] + [] == a;
    CancelOne(multiset(init), multiset(left + right), v);
  }

  lemma Parts(left: seq<Value>, v: Value, right: seq<Value>)
    ensures multiset(left + [v] + right) == multiset(left + right) + multiset{v}
  {}

  lemma CancelOne(x: multiset<Value>, y: multiset<Value>, v: Value)
    requires x + multiset{v} == y + multiset{v}
    ensures x == y
  {
    forall w ensures x[w] == y[w] {
      assert (x + multiset{v})[w] == (y + multiset{v})[w];
    }
  }

  /** Two numerics of one value at one scale are the same number spelled the same way. */
  lemma SameAtScale(a: Decimal, b: Decimal)
    requires Val(a) == Val(b) && a.scale == b.scale
    ensures a == b
  {
    CmpOrders(a, b);
  }

  /** sum() over the same values in any two orders returns the same value. */
  lemma SumIgnoresOrder(a: seq<Value>, b: seq<Value>, r: Value, q: Value)
    requires AllExact(a) && AllExact(b) && multiset(a) == multiset(b) && IsTotal(r, a) && IsTotal(q, b)
    ensures r == q
  {
    hide Val, Exact;
    TotalOfSame(a, b);
    SameMembers(a, b);
    if HasNumeric(a) {
      SameAtScale(AsDecimal(r), AsDecimal(q));
      ValidNumericUnique(r, q);
    } else if HasValue(a) {
      WordOfSigned(r.n);
      WordOfSigned(q.n);
    }
  }

  lemma SameMembers(a: seq<Value>, b: seq<Value>)
    requires multiset(a) == multiset(b)
    ensures HasNumeric(a) == HasNumeric(b) && HasValue(a) == HasValue(b)
  {
    assert forall v :: v in a <==> v in multiset(a);
    assert forall v :: v in b <==> v in multiset(b);
    assert HasNumeric(a) <==> exists v :: v in a && v.k == KindNumeric;
    assert HasNumeric(b) <==> exists v :: v in b && v.k == KindNumeric;
    assert HasValue(a) <==> exists v :: v in a && v.k != KindNull;
    assert HasValue(b) <==> exists v :: v in b && v.k != KindNull;
  }
}
