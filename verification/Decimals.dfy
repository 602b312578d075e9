/** Exact decimals over unbounded integers: alignment, rounding and division at PostgreSQL's scale. */
module Decimals {
  import opened Values
  import opened Digits

  /** The number `unscaled` divided by ten to the `scale`. */
  datatype Decimal = Decimal(unscaled: int, scale: nat)

  function Max(a: int, b: int): int { if a < b then b else a }
  function Min(a: int, b: int): int { if a < b then a else b }

  /** The rational number a decimal denotes. */
  function Val(d: Decimal): real { d.unscaled as real / Pow10(d.scale) as real }

  /** The digits at a scale that is no narrower. */
  function Rescale(d: Decimal, scale: nat): int
    requires scale >= d.scale
  {
    if scale == d.scale then d.unscaled else d.unscaled * Pow10(scale - d.scale)
  }

  function Common(a: Decimal, b: Decimal): nat { if a.scale < b.scale then b.scale else a.scale }

  function Add(a: Decimal, b: Decimal): Decimal {
    var s := Common(a, b);
    Decimal(Rescale(a, s) + Rescale(b, s), s)
  }

  function Sub(a: Decimal, b: Decimal): Decimal {
    var s := Common(a, b);
    Decimal(Rescale(a, s) - Rescale(b, s), s)
  }

  function Mul(a: Decimal, b: Decimal): Decimal { Decimal(a.unscaled * b.unscaled, a.scale + b.scale) }

  function Neg(a: Decimal): Decimal { Decimal(-a.unscaled, a.scale) }

  function Mod(a: Decimal, b: Decimal): Decimal
    requires b.unscaled != 0
  {
    var s := Common(a, b);
    RescaleZero(b, s);
    Decimal(Rem(Rescale(a, s), Rescale(b, s)), s)
  }

  function Cmp(a: Decimal, b: Decimal): int {
    var s := Common(a, b);
    Sign(Rescale(a, s) - Rescale(b, s))
  }

  lemma RescaleZero(d: Decimal, s: nat)
    requires s >= d.scale
    ensures Rescale(d, s) == 0 <==> d.unscaled == 0
    ensures Sign(Rescale(d, s)) == Sign(d.unscaled)
  {
    var p := Pow10(s - d.scale);
    if d.unscaled > 0 { MulStrict(0, d.unscaled, p); } else if d.unscaled < 0 { MulStrict(d.unscaled, 0, p); }
  }

  /** Rounds half away from zero; widening is exact. */
  function Round(d: Decimal, scale: nat): Decimal {
    if scale >= d.scale then Decimal(Rescale(d, scale), scale)
    else
      Decimal(RoundQuo(d.unscaled, Pow10(d.scale - scale)), scale)
  }

  function RoundQuo(u: int, drop: int): int
    requires drop > 0
  {
    var q, r := Quo(u, drop), Rem(u, drop);
    if r != 0 && 2 * Abs(r) >= drop then (if u < 0 then q - 1 else q + 1) else q
  }

  // ---- what the operations denote ----

  lemma RealDiv(x: real, y: real, c: real)
    requires c != 0.0
    ensures x / c + y / c == (x + y) / c && x / c - y / c == (x - y) / c
  {}

  lemma RealScale(x: real, p: real, c: real)
    requires c != 0.0 && p != 0.0
    ensures (x * p) / (c * p) == x / c
  {
    var q := x / c;
    assert q * c == x;
    assert q * (c * p) == x * p by { assert q * (c * p) == (q * c) * p; }
    RealQuotient(q, x * p, c * p);
  }

  lemma RealQuotient(q: real, n: real, d: real)
    requires d != 0.0 && q * d == n
    ensures q == n / d
  {}

  lemma CastMul(x: int, y: int)
    ensures (x * y) as real == x as real * y as real
  {}

  lemma RescaleVal(d: Decimal, s: nat)
    requires s >= d.scale
    ensures Rescale(d, s) as real / Pow10(s) as real == Val(d)
  {
    hide Pow10;
    var p, c := Pow10(s - d.scale), Pow10(d.scale);
    if s > d.scale {
      Pow10Add(d.scale, s - d.scale);
      ScaledFraction(d.unscaled, c, p, Rescale(d, s), Pow10(s));
    }
  }

  lemma ScaledFraction(u: int, c: int, p: int, n: int, d: int)
    requires c > 0 && p > 0 && n == u * p && d == c * p && d != 0
    ensures n as real / d as real == u as real / c as real
  {
    CastMul(u, p);
    CastMul(c, p);
    RealScale(u as real, p as real, c as real);
  }

  /** Sums and differences are exact, at the wider scale. */
  lemma AddIsExact(a: Decimal, b: Decimal)
    ensures Val(Add(a, b)) == Val(a) + Val(b) && Val(Sub(a, b)) == Val(a) - Val(b)
    ensures Add(a, b).scale == Sub(a, b).scale == Common(a, b)
  {
    var s := Common(a, b);
    RescaleVal(a, s);
    RescaleVal(b, s);
    RealDiv(Rescale(a, s) as real, Rescale(b, s) as real, Pow10(s) as real);
  }

  lemma MulIsExact(a: Decimal, b: Decimal)
    ensures Val(Mul(a, b)) == Val(a) * Val(b)
  {
    hide Pow10;
    Pow10Add(a.scale, b.scale);
    IntFractions(a.unscaled, Pow10(a.scale), b.unscaled, Pow10(b.scale), a.unscaled * b.unscaled, Pow10(a.scale + b.scale));
  }

  lemma IntFractions(x: int, pa: int, y: int, pb: int, n: int, d: int)
    requires pa > 0 && pb > 0 && n == x * y && d == pa * pb && d != 0
    ensures n as real / d as real == (x as real / pa as real) * (y as real / pb as real)
  {
    CastMul(pa, pb);
    CastMul(x, y);
    Fractions(x as real, pa as real, y as real, pb as real);
  }

  lemma Fractions(x: real, pa: real, y: real, pb: real)
    requires pa > 0.0 && pb > 0.0
    ensures pa * pb > 0.0 && (x * y) / (pa * pb) == (x / pa) * (y / pb)
  {
    var p, q := x / pa, y / pb;
    FractionsBack(p, pa, q, pb, x, y);
    RealQuotient(p * q, x * y, pa * pb);
  }

  lemma FractionsBack(p: real, pa: real, q: real, pb: real, x: real, y: real)
    requires p * pa == x && q * pb == y
    ensures (p * q) * (pa * pb) == x * y
  {
    assert (p * q) * (pa * pb) == (p * pa) * (q * pb);
  }

  lemma OrderOverPower(x: int, y: int, p: real)
    requires p > 0.0
    ensures Sign(x - y) == SignReal(x as real / p - y as real / p)
  {
    var a, b := x as real / p, y as real / p;
    assert a * p == x as real && b * p == y as real;
    if x < y {
      if a >= b { RealMono(b, a, p); }
    } else if x > y {
      if a <= b { RealMono(a, b, p); }
    }
  }

  lemma RealMono(a: real, b: real, p: real)
    requires a <= b && p > 0.0
    ensures a * p <= b * p
  {}

  function SignReal(x: real): int { if x < 0.0 then -1 else if x > 0.0 then 1 else 0 }

  lemma NegIsExact(a: Decimal)
    ensures Val(Neg(a)) == -Val(a) && Neg(a).scale == a.scale
  {
    var p, x := Pow10(a.scale) as real, a.unscaled as real;
    RealQuotient(-(x / p), -x, p);
  }

  /** Comparison orders by the numbers denoted, whatever the two scales. */
  lemma CmpOrders(a: Decimal, b: Decimal)
    ensures Cmp(a, b) == SignReal(Val(a) - Val(b))
  {
    var s := Common(a, b);
    RescaleVal(a, s);
    RescaleVal(b, s);
    OrderOverPower(Rescale(a, s), Rescale(b, s), Pow10(s) as real);
  }

  /** The remainder of a truncated quotient: the dividend's sign, smaller than the divisor. */
  lemma ModIsRemainder(a: Decimal, b: Decimal)
    requires b.unscaled != 0
    ensures var s := Common(a, b); var m := Mod(a, b);
            && m.scale == s && Rescale(b, s) != 0
            && Rescale(a, s) == Quo(Rescale(a, s), Rescale(b, s)) * Rescale(b, s) + m.unscaled
            && Abs(m.unscaled) < Abs(Rescale(b, s))
            && (m.unscaled == 0 || Sign(m.unscaled) == Sign(a.unscaled))
  {
    var s := Common(a, b);
    RescaleZero(a, s);
    RescaleZero(b, s);
    QuoRem(Rescale(a, s), Rescale(b, s));
  }

  // ---- rounding ----

  /** `u` is the fraction num / den rounded half away from zero, all three non-negative. */
  predicate HalfUp(num: int, den: int, u: int) {
    den * (2 * u - 1) <= 2 * num < den * (2 * u + 1)
  }

  lemma HalfUpUnique(num: int, den: int, u: int, v: int)
    requires den > 0 && HalfUp(num, den, u) && HalfUp(num, den, v)
    ensures u == v
  {
    MulCancelStrict(2 * u - 1, 2 * v + 1, den);
    MulCancelStrict(2 * v - 1, 2 * u + 1, den);
  }

  /** Narrowing rounds the magnitude half up and keeps the sign. */
  lemma RoundIsHalfAway(d: Decimal, scale: nat)
    requires scale < d.scale
    ensures var r := Round(d, scale);
            && r.scale == scale && HalfUp(Abs(d.unscaled), Pow10(d.scale - scale), Abs(r.unscaled))
            && (r.unscaled == 0 || Sign(r.unscaled) == Sign(d.unscaled))
  {
    hide HalfUp, RoundQuo, Pow10;
    RoundQuoIsHalfAway(d.unscaled, Pow10(d.scale - scale));
  }

  function Size(x: real): real { if x < 0.0 then -x else x }

  /** Widening keeps the number; narrowing moves it by at most half a unit of the last place kept, and by
      exactly that only away from zero. */
  lemma RoundIsNearest(d: Decimal, scale: nat)
    ensures var r := Round(d, scale);
            && r.scale == scale && (scale >= d.scale ==> Val(r) == Val(d))
            && Size(Val(r) - Val(d)) * (2.0 * Pow10(scale) as real) <= 1.0
            && (Size(Val(r) - Val(d)) * (2.0 * Pow10(scale) as real) == 1.0 ==> Size(Val(r)) > Size(Val(d)))
  {
    hide Pow10, RoundQuo, HalfUp, Val, Size;
    var r := Round(d, scale);
    if scale >= d.scale {
      RoundWidens(d, scale);
    } else {
      RoundIsHalfAway(d, scale);
      Pow10Add(scale, d.scale - scale);
      ValTimes(r);
      ValTimes(d);
      Narrowed(Val(r), Val(d), r.unscaled, d.unscaled, Pow10(scale), Pow10(d.scale - scale), Pow10(d.scale));
    }
  }

  lemma Narrowed(x: real, y: real, r: int, u: int, p: int, drop: int, q: int)
    requires p > 0 && drop > 0 && q == p * drop && q > 0 && x * p as real == r as real && y * q as real == u as real
    requires HalfUp(Abs(u), drop, Abs(r)) && (r == 0 || Sign(r) == Sign(u))
    ensures Size(x - y) * (2.0 * p as real) <= 1.0
    ensures Size(x - y) * (2.0 * p as real) == 1.0 ==> Size(x) > Size(y)
  {
    hide Size, Abs, HalfUp;
    HalfUpError(u, r, drop);
    var w := ScaledUp(x, r, p, drop, q);
    RoundError(x, y, w, u, p as real, drop as real, q as real);
  }

  lemma ScaledUp(x: real, r: int, p: int, drop: int, q: int) returns (w: int)
    requires p > 0 && drop > 0 && q == p * drop && x * p as real == r as real
    ensures w == r * drop && x * q as real == w as real && q as real == p as real * drop as real
  {
    w := r * drop;
    CastMul(r, drop);
    CastMul(p, drop);
    RealAssoc(x, p as real, drop as real);
  }

  lemma RoundWidens(d: Decimal, scale: nat)
    requires scale >= d.scale
    ensures Val(Round(d, scale)) == Val(d) && Size(Val(Round(d, scale)) - Val(d)) == 0.0
  {
    RescaleVal(d, scale);
  }

  lemma RoundError(x: real, y: real, w: int, u: int, p: real, drop: real, z: real)
    requires p > 0.0 && drop > 0.0 && z == p * drop && z > 0.0 && x * z == w as real && y * z == u as real
    requires 2.0 * Abs(w - u) as real <= drop && (2.0 * Abs(w - u) as real == drop ==> Abs(w) > Abs(u))
    ensures Size(x - y) * (2.0 * p) <= 1.0
    ensures Size(x - y) * (2.0 * p) == 1.0 ==> Size(x) > Size(y)
  {
    hide Size, Abs;
    ErrorOver(x, y, z, w, u);
    HalfUnit(Size(x - y), p, drop, Abs(w - u) as real);
  }

  lemma ErrorOver(x: real, y: real, z: real, w: int, u: int)
    requires z > 0.0 && x * z == w as real && y * z == u as real
    ensures Size(x - y) * z == Abs(w - u) as real
    ensures Abs(w) > Abs(u) ==> Size(x) > Size(y)
  {
    hide Size, Abs;
    RealLess(x, y, z);
    SizeTimes(x - y, z, w - u);
    if Abs(w) > Abs(u) { SizeOver(x, y, z, w, u); }
  }

  lemma SizeOver(x: real, y: real, z: real, w: int, u: int)
    requires z > 0.0 && x * z == w as real && y * z == u as real && Abs(w) > Abs(u)
    ensures Size(x) > Size(y)
  {
    hide Size, Abs;
    SizeTimes(x, z, w);
    SizeTimes(y, z, u);
    Larger(Size(x), Size(y), z, Abs(w), Abs(u));
  }

  lemma Larger(a: real, b: real, z: real, m: int, n: int)
    requires z > 0.0 && a * z == m as real && b * z == n as real && m > n
    ensures a > b
  {
    assert m as real > n as real;
    if a <= b { RealMono(a, b, z); }
  }

  lemma RealAssoc(x: real, p: real, q: real)
    ensures x * (p * q) == (x * p) * q
  {}

  lemma RealLess(x: real, y: real, z: real)
    ensures (x - y) * z == x * z - y * z
  {}

  lemma ValTimes(d: Decimal)
    ensures Val(d) * Pow10(d.scale) as real == d.unscaled as real
  {
    hide Pow10;
    var p := Pow10(d.scale) as real;
    var v := d.unscaled as real / p;
    assert v * p == d.unscaled as real;
  }

  lemma HalfUnit(e: real, p: real, drop: real, n: real)
    requires p > 0.0 && drop > 0.0 && e * (p * drop) == n && 2.0 * n <= drop
    ensures e * (2.0 * p) <= 1.0 && (e * (2.0 * p) == 1.0 ==> 2.0 * n == drop)
  {
    var w := e * (2.0 * p);
    assert w * drop == 2.0 * (e * (p * drop)) by { assert w * drop == (2.0 * (e * p)) * drop; assert e * (p * drop) == (e * p) * drop; }
    if w > 1.0 { LessTimes(1.0, w, drop); }
  }

  lemma HalfUpError(u: int, r: int, drop: int)
    requires drop > 0 && HalfUp(Abs(u), drop, Abs(r)) && (r == 0 || Sign(r) == Sign(u))
    ensures 2 * Abs(r * drop - u) <= drop
    ensures 2 * Abs(r * drop - u) == drop ==> Abs(r * drop) > Abs(u)
  {
    var n, q := Abs(u), Abs(r);
    Doubled(drop, q);
    AbsTimes(r, drop);
    MulMono(0, q, drop);
  }

  lemma Doubled(drop: int, q: int)
    ensures drop * (2 * q - 1) == 2 * (q * drop) - drop && drop * (2 * q + 1) == 2 * (q * drop) + drop
  {}

  lemma AbsTimes(r: int, drop: int)
    requires drop > 0
    ensures r * drop == if r < 0 then -(Abs(r) * drop) else Abs(r) * drop
  {
    assert (-r) * drop == -(r * drop);
  }

  lemma SizeTimes(x: real, k: real, n: int)
    requires k > 0.0 && x * k == n as real
    ensures Size(x) * k == Abs(n) as real
  {
    if x < 0.0 { NegTimes(x, k); assert (-x) * k == -(x * k); } else { RealMono(0.0, x, k); }
  }

  lemma RoundQuoIsHalfAway(u: int, drop: int)
    requires drop > 0
    ensures var r := RoundQuo(u, drop);
            HalfUp(Abs(u), drop, Abs(r)) && (r == 0 || Sign(r) == Sign(u))
  {
    hide HalfUp, Quo, Rem;
    var q, r := Magnitudes(u, drop);
    RoundParts(Abs(u), drop, q, r);
  }

  lemma Magnitudes(u: int, drop: int) returns (q: int, r: int)
    requires drop > 0
    ensures Abs(u) == q * drop + r && 0 <= r < drop && 0 <= q
    ensures Quo(u, drop) == (if u < 0 then -q else q) && Rem(u, drop) == (if u < 0 then -r else r)
  {
    q, r := Abs(u) / drop, Abs(u) % drop;
    DivMod(Abs(u), drop);
  }

  lemma RoundParts(n: int, drop: int, q: int, r: int)
    requires drop > 0 && n == q * drop + r && 0 <= r < drop
    ensures HalfUp(n, drop, if r != 0 && 2 * r >= drop then q + 1 else q)
  {
    assert drop * (2 * q - 1) == 2 * (q * drop) - drop;
    assert drop * (2 * q + 1) == 2 * (q * drop) + drop;
    assert drop * (2 * (q + 1) - 1) == 2 * (q * drop) + drop;
    assert drop * (2 * (q + 1) + 1) == 2 * (q * drop) + 3 * drop;
  }

  // ---- division ----

  datatype DivError = DivideByZero | NegativePower

  const MIN_SIG_DIGITS := 16
  const DEC_DIGITS := 4
  const MAX_SCALE := 1000
  const MAX_INT32 := 0x7FFF_FFFF

  /** A sum of int32 values wraps around. */
  function Int32(x: int): int { (x + 0x8000_0000) % 0x1_0000_0000 - 0x8000_0000 }

  /** The base-10000 exponent of the leading digit group. */
  function NbaseWeight(d: Decimal): int {
    if d.unscaled == 0 then 0
    else
      var e := |NatText(Abs(d.unscaled))| - 1 - d.scale;
      if e >= 0 then e / 4 else -((-e + 3) / 4)
  }

  /** The leading base-10000 digit. */
  function Lead(d: Decimal): int {
    if d.unscaled == 0 then 0
    else
      var shift := d.scale + 4 * NbaseWeight(d);
      if shift > 0 then Abs(d.unscaled) / Pow10(shift) else Abs(d.unscaled) * Pow10(-shift)
  }

  /** The scale of a quotient before it is capped. */
  function WantedScale(a: Decimal, b: Decimal): nat {
    var qweight := NbaseWeight(a) - NbaseWeight(b) - (if Lead(a) < Lead(b) then 1 else 0);
    Max(Max(MIN_SIG_DIGITS - qweight * DEC_DIGITS, a.scale), Max(b.scale, 0))
  }

  function DivScale(a: Decimal, b: Decimal): nat { Min(WantedScale(a, b), MAX_SCALE) }

  /** One extra digit is computed and rounded off. The power of ten panics when it is negative. */
  function Div(a: Decimal, b: Decimal): Result<Decimal, DivError> {
    if b.unscaled == 0 then Err(DivideByZero)
    else if a.unscaled == 0 then Ok(Decimal(0, Common(a, b)))
    else
      var rscale := DivScale(a, b);
      var e := Int32(rscale - a.scale + b.scale + 1);
      if e < 0 then Err(NegativePower)
      else Ok(Round(Decimal(Quo(a.unscaled * Pow10(e), b.unscaled), rscale + 1), rscale))
  }

  /** Division fails exactly on a zero divisor; when the dividend carries over 1001 more digits after the
      point than the divisor; or when the divisor carries so many more that the exponent wraps around. */
  lemma DivFails(a: Decimal, b: Decimal)
    requires a.scale <= MAX_INT32 && b.scale <= MAX_INT32
    ensures Div(a, b) == Err(DivideByZero) <==> b.unscaled == 0
    ensures Div(a, b) == Err(NegativePower) <==>
            && b.unscaled != 0 && a.unscaled != 0
            && (a.scale > b.scale + MAX_SCALE + 1 || b.scale > a.scale + MAX_INT32 - MAX_SCALE - 1)
    ensures b.unscaled != 0 && a.unscaled == 0 ==> Div(a, b) == Ok(Decimal(0, if a.scale < b.scale then b.scale else a.scale))
  {
    hide Round, Quo, NbaseWeight, Lead;
  }

  /** The exponent of a division that succeeds did not wrap around. */
  lemma ExponentFits(a: Decimal, b: Decimal)
    requires Div(a, b).Ok? && a.unscaled != 0 && a.scale <= MAX_INT32 && b.scale <= MAX_INT32
    ensures b.unscaled != 0 && DivScale(a, b) - a.scale + b.scale + 1 >= 0
    ensures Int32(DivScale(a, b) - a.scale + b.scale + 1) == DivScale(a, b) - a.scale + b.scale + 1
  {
    hide Round, Quo, NbaseWeight, Lead;
  }

  /** The weights matter only to scales below the cap, and there none of their arithmetic leaves int32. */
  lemma WeightsFit(a: Decimal, b: Decimal)
    ensures a.scale >= MAX_SCALE || b.scale >= MAX_SCALE ==> DivScale(a, b) == MAX_SCALE
    ensures |NatText(Abs(a.unscaled))| <= 0x1000_0000 && |NatText(Abs(b.unscaled))| <= 0x1000_0000 && a.scale < MAX_SCALE && b.scale < MAX_SCALE ==>
            && Abs(NbaseWeight(a)) <= 0x400_0000 && Abs(NbaseWeight(b)) <= 0x400_0000
            && MIN_SIG_DIGITS + (Abs(NbaseWeight(a)) + Abs(NbaseWeight(b)) + 1) * DEC_DIGITS <= MAX_INT32
            && Abs(a.scale + 4 * NbaseWeight(a)) <= MAX_INT32 && Abs(b.scale + 4 * NbaseWeight(b)) <= MAX_INT32
  {
    hide Lead, NatText;
  }

  /** The scale is never narrower than an operand's, up to the cap. */
  lemma DivScaleWide(a: Decimal, b: Decimal)
    requires Div(a, b).Ok? && a.scale <= MAX_SCALE && b.scale <= MAX_SCALE
    ensures Div(a, b).value.scale >= a.scale && Div(a, b).value.scale >= b.scale
  {
    hide Quo, NbaseWeight, Lead;
  }

  /** Truncating at one extra digit and rounding that off is rounding the exact quotient. */
  lemma ExtraDigit(num: int, den: int, q: int, r: int, u: int)
    requires den > 0 && 0 <= num && 10 * num == q * den + r && 0 <= r < den
    requires HalfUp(q, 10, u)
    ensures HalfUp(num, den, u)
  {
    assert 10 * (2 * u - 1) <= 2 * q < 10 * (2 * u + 1);
    assert 10 * u - 5 <= q <= 10 * u + 4;
    MulMono(10 * u - 5, q, den);
    MulMono(q, 10 * u + 4, den);
    assert (10 * u - 5) * den == 10 * (u * den) - 5 * den;
    assert (10 * u + 4) * den == 10 * (u * den) + 4 * den;
    assert den * (2 * u - 1) == 2 * (u * den) - den;
    assert den * (2 * u + 1) == 2 * (u * den) + den;
  }

  /** The quotient is the exact one, rounded half away from zero at the chosen scale. */
  lemma DivIsRounded(a: Decimal, b: Decimal)
    requires Div(a, b).Ok? && a.unscaled != 0 && a.scale <= MAX_INT32 && b.scale <= MAX_INT32
    ensures var q, s := Div(a, b).value, DivScale(a, b);
            && q.scale == s
            && HalfUp(Abs(a.unscaled) * Pow10(s + b.scale), Abs(b.unscaled) * Pow10(a.scale), Abs(q.unscaled))
            && (q.unscaled == 0 || Sign(q.unscaled) == Sign(a.unscaled) * Sign(b.unscaled))
  {
    hide HalfUp, Pow10, Quo, DivScale, Lead, NbaseWeight, Rem, Int32;
    ExponentFits(a, b);
    var s := DivScale(a, b);
    var e := s - a.scale + b.scale + 1;
    var t := Quo(a.unscaled * Pow10(e), b.unscaled);
    RoundIsHalfAway(Decimal(t, s + 1), s);
    var u := Round(Decimal(t, s + 1), s).unscaled;
    assert Pow10(1) == 10 by { TenToOne(); }
    var q, r := QuotientDigits(a.unscaled, b.unscaled, Pow10(e));
    Pow10Split(s + b.scale, a.scale, e);
    ExtraDigitScaled(Abs(a.unscaled), Abs(b.unscaled), Pow10(s + b.scale), Pow10(a.scale), Pow10(e), q, r, Abs(u));
  }

  lemma TenToOne()
    ensures Pow10(1) == 10
  {
    assert Pow10(0) == 1;
  }

  lemma Pow10Split(m: nat, n: nat, e: nat)
    requires m + 1 == e + n
    ensures 10 * Pow10(m) == Pow10(e) * Pow10(n)
  {
    Pow10Add(e, n);
  }

  /** The magnitude and the sign of a truncated quotient. */
  lemma QuotientDigits(x: int, y: int, p: int) returns (q: int, r: int)
    requires y != 0 && p > 0 && x != 0
    ensures Abs(x) * p == q * Abs(y) + r && 0 <= r < Abs(y) && 0 <= q && Abs(Quo(x * p, y)) == q
    ensures Quo(x * p, y) != 0 ==> Sign(Quo(x * p, y)) == Sign(x) * Sign(y)
  {
    SignedProduct(x, p);
    q, r := Abs(x * p) / Abs(y), Abs(x * p) % Abs(y);
    DivMod(Abs(x * p), Abs(y));
  }

  lemma SignedProduct(x: int, p: int)
    requires p > 0 && x != 0
    ensures Abs(x * p) == Abs(x) * p && (x * p < 0 <==> x < 0)
  {
    if x > 0 { MulStrict(0, x, p); } else { MulStrict(x, 0, p); assert (-x) * p == -(x * p); }
  }

  /** The shared power of ten cancels. */
  lemma ExtraDigitScaled(x: int, y: int, m: int, n: int, p: int, q: int, r: int, u: int)
    requires x > 0 && y > 0 && n > 0 && m > 0 && 10 * m == p * n
    requires x * p == q * y + r && 0 <= r < y && HalfUp(q, 10, u)
    ensures HalfUp(x * m, y * n, u)
  {
    hide HalfUp;
    calc {
      10 * (x * m);
      { assert 10 * (x * m) == x * (10 * m); }
      x * (p * n);
      { MulAssoc(x, p, n); }
      (q * y + r) * n;
      q * (y * n) + r * n;
    }
    MulMono(0, r, n);
    MulStrict(r, y, n);
    MulStrict(0, y, n);
    MulStrict(0, x, m);
    ExtraDigit(x * m, y * n, q, r * n, u);
  }

  // ---- how many digits a quotient has ----

  lemma WeightBounds(d: Decimal)
    requires d.unscaled != 0
    ensures var e := |NatText(Abs(d.unscaled))| - 1 - d.scale;
            4 * NbaseWeight(d) <= e <= 4 * NbaseWeight(d) + 3
  {}

  lemma Pow10Mono(m: nat, n: nat)
    requires m <= n
    ensures Pow10(m) <= Pow10(n)
  {
    if m < n { Pow10Less(m, n); }
  }

  lemma TenThousand()
    ensures Pow10(4) == 10000
  {
    assert Pow10(0) == 1 && Pow10(1) == 10 && Pow10(2) == 100 && Pow10(3) == 1000;
  }

  /** The leading group is a base-10000 digit other than zero, and it is the leading part of the
      number: both facts scaled by enough powers of ten to stay in the integers. */
  lemma LeadBounds(d: Decimal, m: nat)
    requires d.unscaled != 0 && m + d.scale + 4 * NbaseWeight(d) >= 0
    ensures 1 <= Lead(d) <= 9999
    ensures var p := Pow10(m + d.scale + 4 * NbaseWeight(d));
            Lead(d) * p <= Abs(d.unscaled) * Pow10(m) < (Lead(d) + 1) * p
  {
    hide Pow10, NbaseWeight;
    var u, len := Abs(d.unscaled), |NatText(Abs(d.unscaled))|;
    var shift := d.scale + 4 * NbaseWeight(d);
    WeightBounds(d);
    NatTextLength(u);
    TenThousand();
    if shift > 0 {
      DivMod(u, Pow10(shift));
      LeadDown(u, len, shift, m, u / Pow10(shift), u % Pow10(shift));
    } else {
      LeadUp(u, len, -shift, m);
    }
  }

  lemma LeadDown(u: nat, len: nat, shift: nat, m: nat, l: int, r: int)
    requires len >= 1 && Pow10(len - 1) <= u < Pow10(len) && shift <= len - 1 <= shift + 3
    requires u == l * Pow10(shift) + r && 0 <= r < Pow10(shift) && Pow10(4) == 10000
    ensures 1 <= l <= 9999
    ensures l * Pow10(m + shift) <= u * Pow10(m) < (l + 1) * Pow10(m + shift)
  {
    hide Pow10;
    var p, k := Pow10(shift), Pow10(m);
    Pow10Add(m, shift);
    Pow10Mono(shift, len - 1);
    Pow10Mono(len, shift + 4);
    Pow10Add(shift, 4);
    MulCancelStrict(1, l + 1, p) by { assert (l + 1) * p == l * p + p; }
    MulCancelStrict(l, 10000, p);
    MulMono(l * p, u, k);
    MulStrict(u, (l + 1) * p, k) by { assert (l + 1) * p == l * p + p; }
    assert (l * p) * k == l * (k * p) && ((l + 1) * p) * k == (l + 1) * (k * p);
  }

  lemma LeadUp(u: nat, len: nat, up: nat, m: nat)
    requires u > 0 && len >= 1 && u < Pow10(len) && len - 1 <= 3 - up && m >= up && Pow10(4) == 10000
    ensures var l := u * Pow10(up);
            1 <= l <= 9999 && l * Pow10(m - up) <= u * Pow10(m) < (l + 1) * Pow10(m - up)
  {
    hide Pow10;
    var l := u * Pow10(up);
    Pow10Add(up, m - up);
    Pow10Add(len, up);
    Pow10Mono(len + up, 4);
    MulStrict(u, Pow10(len), Pow10(up));
    MulStrict(0, u, Pow10(up));
    assert l * Pow10(m - up) == u * (Pow10(up) * Pow10(m - up)) by { MulAssoc(u, Pow10(up), Pow10(m - up)); }
    assert (l + 1) * Pow10(m - up) == l * Pow10(m - up) + Pow10(m - up);
  }

  /** A quotient whose scale was not capped has at least sixteen significant digits. */
  lemma DivIsPrecise(a: Decimal, b: Decimal)
    requires Div(a, b).Ok? && a.unscaled != 0 && WantedScale(a, b) <= MAX_SCALE
    ensures Pow10(15) <= Abs(Div(a, b).value.unscaled)
  {
    hide HalfUp, Pow10, Div, Lead, NbaseWeight;
    DivFails(a, b);
    DivIsRounded(a, b);
    var num, den := Abs(a.unscaled) * Pow10(DivScale(a, b) + b.scale), Abs(b.unscaled) * Pow10(a.scale);
    QuotientLarge(a, b);
    NonZeroProduct(b.unscaled, Pow10(a.scale));
    AtLeast(num, den, Pow10(15), Abs(Div(a, b).value.unscaled));
  }

  lemma NonZeroProduct(x: int, p: int)
    requires x != 0 && p > 0
    ensures Abs(x) * p > 0
  {
    MulStrict(0, Abs(x), p);
  }

  lemma AtLeast(num: int, den: int, k: int, u: int)
    requires den > 0 && k * den <= num && HalfUp(num, den, u)
    ensures k <= u
  {
    assert den * (2 * u + 1) == (2 * u + 1) * den && (2 * k) * den == 2 * (k * den);
    MulCancelStrict(2 * k, 2 * u + 1, den);
  }

  lemma QuotientLarge(a: Decimal, b: Decimal)
    requires a.unscaled != 0 && b.unscaled != 0 && WantedScale(a, b) <= MAX_SCALE
    ensures Pow10(15) * (Abs(b.unscaled) * Pow10(a.scale)) <= Abs(a.unscaled) * Pow10(DivScale(a, b) + b.scale)
  {
    hide Pow10, Lead, NbaseWeight;
    var s, wa, wb, la, lb := DivScale(a, b), NbaseWeight(a), NbaseWeight(b), Lead(a), Lead(b);
    var m: nat := 4 * Abs(wa) + 4 * Abs(wb);
    LeadBounds(a, m);
    LeadBounds(b, m);
    var k := m + a.scale + b.scale;
    assert s >= 16 - 4 * (wa - wb - (if la < lb then 1 else 0));
    LeadQuotient(la, lb, k + 4 * wb, s + 4 * wa - 4 * wb);
    Chain(Abs(a.unscaled), Abs(b.unscaled), m, m + a.scale + 4 * wa, m + b.scale + 4 * wb, la, lb,
          s + b.scale, a.scale, k + 4 * wb, s + 4 * wa - 4 * wb);
  }

  /** Whichever leading group is the larger, the nudge leaves room for sixteen digits. */
  lemma LeadQuotient(la: int, lb: int, k: nat, s: int)
    requires 1 <= la <= 9999 && 1 <= lb <= 9999 && s >= (if la < lb then 20 else 16)
    ensures Pow10(15) * ((lb + 1) * Pow10(k)) <= la * Pow10(k + s)
  {
    hide Pow10;
    var n := if la < lb then 20 else 16;
    Pow10Add(15, n - 15);
    Pow10Mono(k + n, k + s);
    Pow10Add(k, n);
    Tens();
    var f := Pow10(n - 15);
    assert lb + 1 <= la * f;
    MulMono(Pow10(k + n), Pow10(k + s), la);
    MulMono(lb + 1, la * f, Pow10(15) * Pow10(k));
    assert (la * f) * (Pow10(15) * Pow10(k)) == la * (Pow10(k) * (Pow10(15) * f));
    assert (lb + 1) * (Pow10(15) * Pow10(k)) == Pow10(15) * ((lb + 1) * Pow10(k));
  }

  lemma Tens()
    ensures Pow10(1) == 10 && Pow10(5) == 100000
  {
    TenThousand();
    assert Pow10(0) == 1 && Pow10(5) == 10 * Pow10(4);
  }

  /** From the bounds on the leading groups to a bound on the quotient. */
  lemma Chain(x: int, y: int, m: nat, pa: nat, pb: nat, la: int, lb: int, up: nat, down: nat, k: nat, s: int)
    requires x > 0 && y > 0 && k + s >= 0
    requires la * Pow10(pa) <= x * Pow10(m) && y * Pow10(m) < (lb + 1) * Pow10(pb)
    requires pb + down == k && pa + up == k + s
    requires Pow10(15) * ((lb + 1) * Pow10(k)) <= la * Pow10(k + s)
    ensures Pow10(15) * (y * Pow10(down)) <= x * Pow10(up)
  {
    hide Pow10;
    Pow10Add(pb, down);
    Pow10Add(pa, up);
    var t, pm, pd, pu := Pow10(15), Pow10(m), Pow10(down), Pow10(up);
    ChainUp(x, pm, pu, la, Pow10(pa));
    ChainUp(-y, pm, pd, -(lb + 1), Pow10(pb)) by {
      assert (-y) * pm == -(y * pm) && -(lb + 1) * Pow10(pb) == -((lb + 1) * Pow10(pb));
    }
    ChainDown(y, pd, pm, t, lb + 1, Pow10(pb) * pd);
    MulCancel(t * (y * pd), x * pu, pm);
  }

  lemma ChainUp(x: int, pm: int, pu: nat, l: int, p: int)
    requires l * p <= x * pm
    ensures l * (p * pu) <= (x * pu) * pm
  {
    MulMono(l * p, x * pm, pu);
    MulAssoc(l, p, pu);
    assert (x * pm) * pu == (x * pu) * pm;
  }

  lemma ChainDown(y: int, pd: int, pm: int, t: nat, l: int, p: int)
    requires -l * p <= (-y * pd) * pm
    ensures (t * (y * pd)) * pm <= t * (l * p)
  {
    var z := y * pd;
    assert -y * pd == -z && -l * p == -(l * p);
    assert (-z) * pm == -(z * pm);
    MulMono(z * pm, l * p, t);
    assert (t * z) * pm == (z * pm) * t;
  }

  // ---- the scale, from the leading base-10000 groups ----

  function TenTo(n: int): real { if n >= 0 then Pow10(n) as real else 1.0 / Pow10(-n) as real }

  /** `x` is the leading base-10000 group of the number, and stands at the group with exponent `w`. */
  ghost predicate LeadsWith(d: Decimal, x: int, w: int) {
    var size := if Val(d) < 0.0 then -Val(d) else Val(d);
    1 <= x <= 9999 && x as real * TenTo(4 * w) <= size < (x + 1) as real * TenTo(4 * w)
  }

  lemma TenToShift(n: int, k: nat)
    requires n + k >= 0
    ensures TenTo(n) * Pow10(k) as real == Pow10(n + k) as real
  {
    hide Pow10;
    if n >= 0 {
      Pow10Add(n, k);
      CastMul(Pow10(n), Pow10(k));
    } else {
      Pow10Add(-n, n + k);
      CastMul(Pow10(-n), Pow10(n + k));
      Inverse(Pow10(-n) as real, Pow10(n + k) as real);
    }
  }

  lemma Inverse(p: real, q: real)
    requires p > 0.0
    ensures (1.0 / p) * (p * q) == q
  {
    var i := 1.0 / p;
    assert i * p == 1.0;
    assert i * (p * q) == (i * p) * q;
  }

  lemma SizeScaled(d: Decimal, m: nat)
    ensures (if Val(d) < 0.0 then -Val(d) else Val(d)) * Pow10(m + d.scale) as real == (Abs(d.unscaled) * Pow10(m)) as real
  {
    hide Pow10;
    var u, p, k := Abs(d.unscaled) as real, Pow10(d.scale) as real, Pow10(m) as real;
    var v := d.unscaled as real / p;
    assert v * p == d.unscaled as real;
    Pow10Add(m, d.scale);
    CastMul(Pow10(m), Pow10(d.scale));
    CastMul(Abs(d.unscaled), Pow10(m));
    var size := if v < 0.0 then -v else v;
    assert d.unscaled < 0 ==> v < 0.0 by { if v >= 0.0 { RealMono(0.0, v, p); } }
    assert d.unscaled >= 0 ==> v >= 0.0 by { if v < 0.0 && d.unscaled >= 0 { NegTimes(v, p); } }
    assert size * p == u;
    assert size * (k * p) == (size * p) * k;
  }

  lemma NegTimes(v: real, p: real)
    requires v < 0.0 && p > 0.0
    ensures v * p < 0.0
  {}

  lemma BracketScaled(l: int, t: real, v: real, p: real, ti: int, vi: int)
    requires p > 0.0 && t * p == ti as real && v * p == vi as real
    ensures l as real * t <= v <==> l * ti <= vi
  {
    var a := l as real * t;
    CastMul(l, ti);
    assert a * p == l as real * (t * p);
    if a <= v { RealMono(a, v, p); } else { LessTimes(v, a, p); }
  }

  lemma LessTimes(a: real, b: real, p: real)
    requires a < b && p > 0.0
    ensures a * p < b * p
  {}

  lemma LeadsScaled(d: Decimal, x: int, w: int, m: nat)
    requires m + 4 * w >= 0
    ensures LeadsWith(d, x, w) <==>
            var p := Pow10(m + d.scale + 4 * w);
            1 <= x <= 9999 && x * p <= Abs(d.unscaled) * Pow10(m) < (x + 1) * p
  {
    hide Pow10, Val, TenTo;
    var size := if Val(d) < 0.0 then -Val(d) else Val(d);
    SizeScaled(d, m);
    TenToShift(4 * w, m + d.scale);
    BracketScaled(x, TenTo(4 * w), size, Pow10(m + d.scale) as real, Pow10(m + d.scale + 4 * w), Abs(d.unscaled) * Pow10(m));
    BracketScaled(x + 1, TenTo(4 * w), size, Pow10(m + d.scale) as real, Pow10(m + d.scale + 4 * w), Abs(d.unscaled) * Pow10(m));
  }

  /** A bracket that starts at a lower group ends before one that starts at a higher. */
  lemma GroupsOrdered(x: int, y: int, j: nat, k: nat)
    requires 1 <= x <= 9999 && 1 <= y && j + 4 <= k
    ensures (x + 1) * Pow10(j) <= y * Pow10(k)
  {
    hide Pow10;
    TenThousand();
    Pow10Add(j, 4);
    Pow10Mono(j + 4, k);
    MulMono(x + 1, 10000, Pow10(j));
    MulMono(1, y, Pow10(k));
  }

  /** Every number other than zero has one leading group, and it is what `Lead` and `NbaseWeight` compute. */
  lemma LeadingGroup(d: Decimal, x: int, w: int)
    requires d.unscaled != 0
    ensures LeadsWith(d, x, w) <==> x == Lead(d) && w == NbaseWeight(d)
  {
    hide Pow10, Lead, NbaseWeight, LeadsWith;
    var l, v := Lead(d), NbaseWeight(d);
    var m: nat := 4 * Abs(w) + 4 * Abs(v);
    LeadBounds(d, m);
    LeadsScaled(d, l, v, m);
    LeadsScaled(d, x, w, m);
    if LeadsWith(d, x, w) { OneBracket(x, w, l, v, m + d.scale, Abs(d.unscaled) * Pow10(m)); }
  }

  lemma OneBracket(x: int, w: int, l: int, v: int, k: nat, u: int)
    requires 1 <= x <= 9999 && 1 <= l <= 9999 && k + 4 * w >= 0 && k + 4 * v >= 0
    requires x * Pow10(k + 4 * w) <= u < (x + 1) * Pow10(k + 4 * w)
    requires l * Pow10(k + 4 * v) <= u < (l + 1) * Pow10(k + 4 * v)
    ensures x == l && w == v
  {
    hide Pow10;
    if w < v { GroupsOrdered(x, l, k + 4 * w, k + 4 * v); }
    if v < w { GroupsOrdered(l, x, k + 4 * v, k + 4 * w); }
    MulCancelStrict(x, l + 1, Pow10(k + 4 * w));
    MulCancelStrict(l, x + 1, Pow10(k + 4 * w));
  }

  /** The scale of a quotient: sixteen places, four fewer for each group the dividend has more than the
      divisor before the point, four more if its leading group is the smaller one; then no fewer than
      either operand has, and no more than a thousand. */
  lemma DivScaleIs(a: Decimal, b: Decimal, x: int, u: int, y: int, v: int)
    requires Div(a, b).Ok? && a.unscaled != 0 && a.scale <= MAX_INT32 && b.scale <= MAX_INT32
    requires LeadsWith(a, x, u) && LeadsWith(b, y, v)
    ensures var n := if x >= y then 16 - 4 * (u - v) else 20 - 4 * (u - v);
            var s := Div(a, b).value.scale;
            && (n <= 1000 && a.scale <= n && b.scale <= n ==> s == n)
            && (a.scale <= 1000 && b.scale <= a.scale && n <= a.scale ==> s == a.scale)
            && (b.scale <= 1000 && a.scale <= b.scale && n <= b.scale ==> s == b.scale)
            && (n > 1000 || a.scale > 1000 || b.scale > 1000 ==> s == 1000)
  {
    hide LeadsWith, Lead, NbaseWeight, Quo;
    LeadingGroup(a, x, u);
    LeadingGroup(b, y, v);
  }

  /** No more digits than the rule asks for: where neither operand sets the scale, at most twenty-one. */
  lemma DivIsShort(a: Decimal, b: Decimal)
    requires Div(a, b).Ok? && a.scale <= MAX_INT32 && b.scale <= MAX_INT32
    ensures var q := Div(a, b).value;
            q.scale > a.scale && q.scale > b.scale ==> Abs(q.unscaled) <= Pow10(20)
  {
    hide HalfUp, Pow10, Div, Lead, NbaseWeight;
    DivFails(a, b);
    if a.unscaled == 0 {
      ZeroOver(a, b);
    } else {
      DivIsRounded(a, b);
      if DivScale(a, b) > a.scale && DivScale(a, b) > b.scale {
        QuotientSmall(a, b);
        var num, den := Abs(a.unscaled) * Pow10(DivScale(a, b) + b.scale), Abs(b.unscaled) * Pow10(a.scale);
        NonZeroProduct(b.unscaled, Pow10(a.scale));
        AtMost(num, den, Pow10(20), Abs(Div(a, b).value.unscaled));
      }
    }
  }

  lemma ZeroOver(a: Decimal, b: Decimal)
    requires a.unscaled == 0 && b.unscaled != 0
    ensures Div(a, b) == Ok(Decimal(0, if a.scale < b.scale then b.scale else a.scale))
  {}

  lemma AtMost(num: int, den: int, k: int, u: int)
    requires den > 0 && num <= k * den && HalfUp(num, den, u)
    ensures u <= k
  {
    assert den * (2 * u - 1) == (2 * u - 1) * den && (2 * k) * den == 2 * (k * den);
    MulCancel(2 * u - 1, 2 * k, den);
  }

  lemma QuotientSmall(a: Decimal, b: Decimal)
    requires a.unscaled != 0 && b.unscaled != 0 && DivScale(a, b) > a.scale && DivScale(a, b) > b.scale
    ensures Abs(a.unscaled) * Pow10(DivScale(a, b) + b.scale) <= Pow10(20) * (Abs(b.unscaled) * Pow10(a.scale))
  {
    hide Pow10, Lead, NbaseWeight;
    var s, wa, wb, la, lb := DivScale(a, b), NbaseWeight(a), NbaseWeight(b), Lead(a), Lead(b);
    var m: nat := 4 * Abs(wa) + 4 * Abs(wb);
    LeadBounds(a, m);
    LeadBounds(b, m);
    var k := m + a.scale + b.scale;
    assert s <= 16 - 4 * (wa - wb - (if la < lb then 1 else 0));
    LeadQuotientSmall(la, lb, k + 4 * wb, s + 4 * wa - 4 * wb);
    ChainBack(Abs(a.unscaled), Abs(b.unscaled), Pow10(m), m + a.scale + 4 * wa, m + b.scale + 4 * wb, la, lb, s + b.scale, a.scale);
  }

  lemma LeadQuotientSmall(la: int, lb: int, k: nat, s: int)
    requires 1 <= la <= 9999 && 1 <= lb <= 9999 && s <= (if la < lb then 20 else 16) && k + s >= 0
    ensures (la + 1) * Pow10(k + s) <= Pow10(20) * (lb * Pow10(k))
  {
    hide Pow10;
    var n := if la < lb then 20 else 16;
    Pow10Mono(k + s, k + n);
    Pow10Add(k, n);
    Pow10Add(16, 4);
    TenThousand();
    MulMono(Pow10(k + s), Pow10(k + n), la + 1);
    var c := if la < lb then 1 else 10000;
    MulMono(la + 1, lb * c, Pow10(n) * Pow10(k));
    Regroup(lb, c, Pow10(n), Pow10(k));
  }

  lemma Regroup(x: int, c: int, p: int, k: int)
    ensures (x * c) * (p * k) == (p * c) * (x * k)
  {
    assert (x * c) * (p * k) == x * (c * (p * k)) && c * (p * k) == (p * c) * k;
    assert x * ((p * c) * k) == (p * c) * (x * k);
  }

  lemma Swapped(x: int, p: int, q: int)
    ensures (x * p) * q == (x * q) * p
  {}

  lemma ChainBack(x: int, y: int, pm: int, pa: nat, pb: nat, la: int, lb: int, up: nat, down: nat)
    requires x > 0 && y > 0 && pm > 0
    requires x * pm < (la + 1) * Pow10(pa) && lb * Pow10(pb) <= y * pm
    requires (la + 1) * Pow10(pa + up) <= Pow10(20) * (lb * Pow10(pb + down))
    ensures x * Pow10(up) <= Pow10(20) * (y * Pow10(down))
  {
    hide Pow10;
    Pow10Add(pa, up);
    Pow10Add(pb, down);
    var t, pu, pd := Pow10(20), Pow10(up), Pow10(down);
    MulMono(x * pm, (la + 1) * Pow10(pa), pu);
    MulAssoc(la + 1, Pow10(pa), pu);
    MulMono(lb * Pow10(pb), y * pm, pd);
    MulAssoc(lb, Pow10(pb), pd);
    MulMono(lb * Pow10(pb + down), (y * pm) * pd, t);
    Swapped(x, pm, pu);
    Swapped(y, pm, pd);
    MulAssoc(t, y * pd, pm);
    MulCancel(x * pu, t * (y * pd), pm);
  }
}
