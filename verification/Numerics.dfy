/** A numeric value's two representations: an inline int64, or big digits kept as text. */
module Numerics {
  import opened Values
  import opened Digits
  import opened Decimals

  const MAX_SMALL_SCALE: byte := 18
  const SCALE_TAG: byte := 255
  const COLON: byte := 58

  predicate FitsInt64(x: int) { -TWO_63 <= x < TWO_63 }

  /** Two's complement arithmetic keeps the low 64 bits. */
  function Wrap(x: int): int64 { (x + TWO_63) % TWO_64 - TWO_63 }

  function EncodeDecimal(d: Decimal): bytes { NatText(d.scale) + [COLON] + IntText(d.unscaled) }

  /** A value holding an exact decimal, inline when it fits. */
  function Numeric(d: Decimal): Value {
    if d.scale <= MAX_SMALL_SCALE && FitsInt64(d.unscaled)
    then Value(KindNumeric, d.scale, ToWord(d.unscaled), [])
    else Value(KindNumeric, SCALE_TAG, 0, EncodeDecimal(d))
  }

  predicate IsSmall(v: Value) { v.k == KindNumeric && v.scale != SCALE_TAG }

  /** The text before and after the first separator; all of it and nothing without one. */
  function CutAt(s: bytes, sep: byte, i: nat): (bytes, bytes)
    requires i <= |s|
    decreases |s| - i
  {
    if i == |s| then (s, []) else if s[i] == sep then (s[..i], s[i + 1..]) else CutAt(s, sep, i + 1)
  }

  method Cut(s: bytes, sep: byte) returns (before: bytes, after: bytes)
    ensures (before, after) == CutAt(s, sep, 0)
  {
    for i := 0 to |s|
      invariant CutAt(s, sep, 0) == CutAt(s, sep, i)
    {
      if s[i] == sep { return s[..i], s[i + 1..]; }
    }
    return s, [];
  }

  /** Text that is not a scale reads as zero, and one past the width saturates. */
  function ScaleOf(text: bytes): nat {
    match TextInt(text)
    case Some(n) => if n < 0 then 0 else if n > MAX_INT32 then MAX_INT32 else n
    case None => 0
  }

  function AsDecimal(v: Value): Decimal {
    if IsSmall(v) then Decimal(ToSigned(v.n), v.scale)
    else
      var parts := CutAt(v.s, COLON, 0);
      Decimal(match TextInt(parts.1) case Some(u) => u case None => 0, ScaleOf(parts.0))
  }

  /** A numeric value as every operation leaves it. */
  predicate ValidNumeric(v: Value) {
    v.k == KindNumeric && AsDecimal(v).scale <= MAX_INT32 && v == Numeric(AsDecimal(v))
  }

  lemma {:induction false} CutFinds(s: bytes, sep: byte, k: nat, i: nat)
    requires i <= k < |s| && s[k] == sep && forall j :: 0 <= j < k ==> s[j] != sep
    ensures CutAt(s, sep, i) == (s[..k], s[k + 1..])
    decreases k - i
  {
    if i < k { CutFinds(s, sep, k, i + 1); }
  }

  /** Both representations read back as the decimal they were made from. */
  lemma NumericReads(d: Decimal)
    requires d.scale <= MAX_INT32
    ensures AsDecimal(Numeric(d)) == d && ValidNumeric(Numeric(d))
    ensures Numeric(d).scale != 255 <==> d.scale <= 18 && -0x8000_0000_0000_0000 <= d.unscaled < 0x8000_0000_0000_0000
  {
    if d.scale <= MAX_SMALL_SCALE && FitsInt64(d.unscaled) {
      SignedOfWord(d.unscaled);
    } else {
      var s := EncodeDecimal(d);
      var k := |NatText(d.scale)|;
      CutFinds(s, COLON, k, 0);
      assert s[..k] == NatText(d.scale) && s[k + 1..] == IntText(d.unscaled);
      IntTextReads(d.scale);
      IntTextReads(d.unscaled);
    }
  }

  /** A number that is kept as text: its scale, a colon, and its digits. */
  lemma BigText()
    ensures Numeric(Decimal(-5, 19)) == Value(KindNumeric, 255, 0, [49, 57, 58, 45, 53])
  {
    assert NatText(5) == [53] && NatText(1) == [49];
    assert NatText(19) == [49, 57];
  }

  /** One number at one scale has one representation. */
  lemma ValidNumericUnique(a: Value, b: Value)
    requires ValidNumeric(a) && ValidNumeric(b) && AsDecimal(a) == AsDecimal(b)
    ensures a == b
  {}

  // ---- int64 arithmetic that reports overflow ----

  method AddNoOverflow(x: int64, y: int64) returns (sum: int64, ok: bool)
    ensures ok <==> FitsInt64(x + y)
    ensures ok ==> sum == x + y
  {
    sum := Wrap(x + y);
    if (x > 0 && y > 0 && sum < 0) || (x < 0 && y < 0 && sum >= 0) { return 0, false; }
    return sum, true;
  }

  /** The one product it refuses without need is the least integer times one. */
  method MulNoOverflow(x: int64, y: int64) returns (prod: int64, ok: bool)
    ensures ok <==> x == 0 || y == 0 || (x != MIN_INT64 && y != MIN_INT64 && FitsInt64(x * y))
    ensures ok ==> prod == x * y
  {
    if x == 0 || y == 0 { return 0, true; }
    if x == MIN_INT64 || y == MIN_INT64 { return 0, false; }
    prod := Wrap(x * y);
    DivideBack(x, y, prod);
    if Wrap(Quo(prod, y)) != x { return 0, false; }
    return prod, true;
  }

  /** Dividing the wrapped product back finds every overflow. */
  lemma DivideBack(x: int64, y: int64, prod: int64)
    requires x != 0 && y != 0 && x != MIN_INT64 && y != MIN_INT64 && prod == Wrap(x * y)
    ensures Wrap(Quo(prod, y)) == x <==> FitsInt64(x * y)
    ensures FitsInt64(x * y) ==> prod == x * y
  {
    hide Quo, Rem;
    QuoRem(prod, y);
    QuoSmall(prod, y);
    WrapMod(x * y);
    if FitsInt64(x * y) {
      ExactQuotient(x, y, Quo(prod, y), Rem(prod, y));
    } else {
      assert prod - x * y <= -TWO_64 || TWO_64 <= prod - x * y;
      assert -TWO_63 < prod - Quo(prod, y) * y < TWO_63;
    }
    WrapSame(Quo(prod, y), x);
  }

  lemma WrapMod(z: int)
    ensures exists k :: Wrap(z) == z + k * TWO_64
    ensures FitsInt64(z) ==> Wrap(z) == z
  {
    var k := -((z + TWO_63) / TWO_64);
    assert Wrap(z) == z + k * TWO_64;
  }

  lemma QuoSmall(p: int64, y: int64)
    requires y != 0
    ensures -TWO_63 <= Quo(p, y) <= TWO_63
  {
    QuoBound(Abs(p), Abs(y));
  }

  lemma QuoBound(n: nat, d: nat)
    requires d > 0
    ensures n / d <= n
  {
    DivMod(n, d);
    MulMono(1, d, n / d);
    assert (n / d) * d == d * (n / d);
  }

  /** The quotient that overflows the word wraps to the least integer, which is not `x`. */
  lemma WrapSame(q: int, x: int64)
    requires -TWO_63 <= q <= TWO_63 && x != MIN_INT64
    ensures Wrap(q) == x <==> q == x
  {}

  lemma ExactQuotient(x: int, y: int, q: int, r: int)
    requires y != 0 && x * y == q * y + r && Abs(r) < Abs(y)
    ensures q == x
  {
    assert (x - q) * y == r;
    AbsProduct(x - q, y);
    MulCancelStrict(Abs(x - q), 1, Abs(y));
  }

  lemma AbsProduct(k: int, y: int)
    ensures Abs(k * y) == Abs(k) * Abs(y)
  {
    assert (-k) * y == -(k * y) && k * (-y) == -(k * y) && (-k) * (-y) == k * y;
    if k > 0 { Grows(y, k); } else if k < 0 { Grows(y, -k); }
  }

  lemma Grows(z: int, q: int)
    requires q >= 1
    ensures z >= 0 ==> z * q >= z
    ensures z <= 0 ==> z * q <= z
  {
    if z >= 0 { MulMono(1, q, z); } else { MulMono(1, q, -z); assert q * (-z) == -(z * q); }
  }

  /** Multiplies by a power of ten one digit at a time. */
  method ScaleNoOverflow(x: int64, places: nat) returns (r: int64, ok: bool)
    ensures ok <==> FitsInt64(x * Pow10(places))
    ensures ok ==> r == x * Pow10(places)
  {
    r := x;
    for i := 0 to places
      invariant r == x * Pow10(i)
    {
      var fits: bool;
      assert r * 10 == x * Pow10(i + 1) by { MulAssoc(x, Pow10(i), 10); }
      var next: int64;
      next, fits := MulNoOverflow(r, 10);
      if !fits {
        StaysTooBig(x, i + 1, places);
        return 0, false;
      }
      r := next;
    }
    return r, true;
  }

  /** What does not fit does not fit after further digits either. */
  lemma StaysTooBig(x: int64, i: nat, places: nat)
    requires i <= places && !FitsInt64(x * Pow10(i))
    ensures !FitsInt64(x * Pow10(places))
  {
    hide Pow10;
    Pow10Add(i, places - i);
    MulAssoc(x, Pow10(i), Pow10(places - i));
    Grows(x * Pow10(i), Pow10(places - i));
  }

  /** Brings two small decimals to the wider scale, or reports that one is big or would overflow. */
  method AlignSmall(a: Value, b: Value) returns (x: int64, y: int64, scale: byte, ok: bool)
    requires ValidNumeric(a) && ValidNumeric(b)
    ensures ok ==> IsSmall(a) && IsSmall(b) && scale == Common(AsDecimal(a), AsDecimal(b)) && scale <= MAX_SMALL_SCALE
    ensures ok ==> x == Rescale(AsDecimal(a), scale) && y == Rescale(AsDecimal(b), scale)
  {
    if !IsSmall(a) || !IsSmall(b) { return 0, 0, 0, false; }
    scale := if a.scale < b.scale then b.scale else a.scale;
    x, ok := ScaleNoOverflow(ToSigned(a.n), scale - a.scale);
    if !ok { return 0, 0, 0, false; }
    y, ok := ScaleNoOverflow(ToSigned(b.n), scale - b.scale);
    if !ok { return 0, 0, 0, false; }
    assert Pow10(0) == 1;
    return x, y, scale, true;
  }

  // ---- the fast paths agree with the big integers ----

  method AddNumeric(a: Value, b: Value) returns (r: Value)
    requires ValidNumeric(a) && ValidNumeric(b)
    ensures r == Numeric(Add(AsDecimal(a), AsDecimal(b)))
  {
    var x, y, scale, ok := AlignSmall(a, b);
    if ok {
      var sum, fits := AddNoOverflow(x, y);
      if fits { return Value(KindNumeric, scale, ToWord(sum), []); }
    }
    return Numeric(Add(AsDecimal(a), AsDecimal(b)));
  }

  lemma WrapNeg(y: int64)
    ensures Wrap(-(y as int)) == if y == MIN_INT64 then MIN_INT64 else 0 - y
  {}

  method SubNumeric(a: Value, b: Value) returns (r: Value)
    requires ValidNumeric(a) && ValidNumeric(b)
    ensures r == Numeric(Sub(AsDecimal(a), AsDecimal(b)))
  {
    hide Rescale, AsDecimal, IsSmall, Pow10;
    var x, y, scale, ok := AlignSmall(a, b);
    if ok {
      WrapNeg(y);
      var diff, fits := AddNoOverflow(x, Wrap(-(y as int)));
      if fits && y != MIN_INT64 { return Value(KindNumeric, scale, ToWord(diff), []); }
    }
    return Numeric(Sub(AsDecimal(a), AsDecimal(b)));
  }

  method MulNumeric(a: Value, b: Value) returns (r: Value)
    requires ValidNumeric(a) && ValidNumeric(b)
    ensures r == Numeric(Mul(AsDecimal(a), AsDecimal(b)))
  {
    if IsSmall(a) && IsSmall(b) && a.scale + b.scale <= MAX_SMALL_SCALE {
      var prod, fits := MulNoOverflow(ToSigned(a.n), ToSigned(b.n));
      if fits { return Value(KindNumeric, a.scale + b.scale, ToWord(prod), []); }
    }
    return Numeric(Mul(AsDecimal(a), AsDecimal(b)));
  }

  method NegNumeric(a: Value) returns (r: Value)
    requires ValidNumeric(a)
    ensures r == Numeric(Neg(AsDecimal(a)))
    ensures Val(AsDecimal(r)) == -Val(AsDecimal(a))
  {
    hide Val;
    NegIsExact(AsDecimal(a));
    NumericReads(Neg(AsDecimal(a)));
    if IsSmall(a) && ToSigned(a.n) != MIN_INT64 {
      return Value(KindNumeric, a.scale, ToWord(Wrap(-ToSigned(a.n))), []);
    }
    return Numeric(Neg(AsDecimal(a)));
  }

  method ModNumeric(a: Value, b: Value) returns (r: Result<Value, DivError>)
    requires ValidNumeric(a) && ValidNumeric(b)
    ensures r == if AsDecimal(b).unscaled == 0 then Err(DivideByZero) else Ok(Numeric(Mod(AsDecimal(a), AsDecimal(b))))
  {
    var x, y, scale, ok := AlignSmall(a, b);
    if ok {
      RescaleZero(AsDecimal(b), scale);
      if y == 0 { return Err(DivideByZero); }
      QuoRem(x, y);
      return Ok(Value(KindNumeric, scale, ToWord(Wrap(Rem(x, y))), []));
    }
    if AsDecimal(b).unscaled == 0 { return Err(DivideByZero); }
    return Ok(Numeric(Mod(AsDecimal(a), AsDecimal(b))));
  }

  method CmpNumeric(a: Value, b: Value) returns (c: int)
    requires ValidNumeric(a) && ValidNumeric(b)
    ensures c == SignReal(Val(AsDecimal(a)) - Val(AsDecimal(b)))
  {
    CmpOrders(AsDecimal(a), AsDecimal(b));
    var x, y, scale, ok := AlignSmall(a, b);
    if ok { return if x < y then -1 else if x > y then 1 else 0; }
    return Cmp(AsDecimal(a), AsDecimal(b));
  }

  // ---- ordering integers, numerics and NULL ----

  /** The kinds compared exactly, and NULL. */
  predicate Exact(v: Value) {
    v.k == KindNull || v.k == KindInt || ValidNumeric(v)
  }

  /** The number an integer or a numeric denotes. */
  function Number(v: Value): real
    requires Exact(v) && v.k != KindNull
  {
    if v.k == KindInt then ToSigned(v.n) as real else Val(AsDecimal(v))
  }

  /** NULL above every number; numbers by what they denote. */
  function Order(a: Value, b: Value): int
    requires Exact(a) && Exact(b)
  {
    if a.k == KindNull && b.k == KindNull then 0
    else if a.k == KindNull then 1
    else if b.k == KindNull then -1
    else SignReal(Number(a) - Number(b))
  }

  /** An integer viewed as a numeric of scale nought. */
  function ExactNumeric(v: Value): Value {
    if v.k == KindNumeric then v else Value(KindNumeric, 0, v.n, [])
  }

  lemma ExactNumericSame(v: Value)
    requires Exact(v) && v.k != KindNull
    ensures ValidNumeric(ExactNumeric(v)) && Val(AsDecimal(ExactNumeric(v))) == Number(v)
  {
    if v.k == KindInt {
      WordOfSigned(v.n);
      assert Pow10(0) == 1;
    }
  }

  /** The comparison that ORDER BY, grouping and keys use, on the exact kinds and NULL. */
  method Compare(a: Value, b: Value) returns (c: int)
    requires Exact(a) && Exact(b)
    ensures c == Order(a, b)
  {
    if a.k == KindNull && b.k == KindNull { return 0; }
    if a.k == KindNull { return 1; }
    if b.k == KindNull { return -1; }
    if a.k == KindInt && b.k == KindInt {
      var x, y := ToSigned(a.n), ToSigned(b.n);
      return if x < y then -1 else if x > y then 1 else 0;
    }
    ExactNumericSame(a);
    ExactNumericSame(b);
    c := CmpNumeric(ExactNumeric(a), ExactNumeric(b));
  }

  /** SQL's operators see UNKNOWN, here None, as soon as one side is NULL. */
  method SqlCmp(a: Value, b: Value, pred: int -> bool) returns (r: Option<bool>)
    requires Exact(a) && Exact(b)
    ensures r == if IsNull(a) || IsNull(b) then None else Some(pred(SignReal(Number(a) - Number(b))))
  {
    if IsNull(a) || IsNull(b) { return None; }
    var c := Compare(a, b);
    return Some(pred(c));
  }

  /** A total preorder: reflexive, antisymmetric in sign, transitive, with NULL last. */
  lemma OrderIsTotal(a: Value, b: Value, c: Value)
    requires Exact(a) && Exact(b) && Exact(c)
    ensures Order(a, a) == 0 && Order(a, b) == -Order(b, a)
    ensures Order(a, b) <= 0 && Order(b, c) <= 0 ==> Order(a, c) <= 0
    ensures Order(a, b) == 0 && Order(b, c) == 0 ==> Order(a, c) == 0
    ensures IsNull(b) ==> Order(a, b) <= 0
  {
    hide Number, ValidNumeric;
  }
}
