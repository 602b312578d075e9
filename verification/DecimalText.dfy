/** The text of decimals, and a column's declared precision, which is checked on that text. */
module DecimalText {
  import opened Values
  import opened Digits
  import opened Decimals
  import opened Numerics

  const POINT: byte := 46

  // ---- rendering ----

  /** Inserts the decimal point into a run of digits. */
  function PlacePoint(digits: bytes, scale: nat): bytes {
    if scale == 0 then digits
    else if |digits| <= scale then [ZERO, POINT] + Zeros(scale - |digits|) + digits
    else digits[..|digits| - scale] + [POINT] + digits[|digits| - scale..]
  }

  function Render(d: Decimal): bytes {
    (if d.unscaled < 0 then [MINUS] else []) + PlacePoint(NatText(Abs(d.unscaled)), d.scale)
  }

  // ---- parsing ----

  predicate IsSpace(b: byte) { b == 32 || 9 <= b <= 13 }

  /** The white space outside ASCII, two and three bytes long in UTF-8. */
  predicate IsWideSpace(a: byte, b: byte) { a == 0xC2 && (b == 0x85 || b == 0xA0) }

  predicate IsWiderSpace(a: byte, b: byte, c: byte) {
    || (a == 0xE1 && b == 0x9A && c == 0x80)
    || (a == 0xE2 && b == 0x80 && (0x80 <= c <= 0x8A || c == 0xA8 || c == 0xA9 || c == 0xAF))
    || (a == 0xE2 && b == 0x81 && c == 0x9F)
    || (a == 0xE3 && b == 0x80 && c == 0x80)
  }

  function TrimLeft(s: bytes): bytes {
    if |s| >= 1 && IsSpace(s[0]) then TrimLeft(s[1..])
    else if |s| >= 2 && IsWideSpace(s[0], s[1]) then TrimLeft(s[2..])
    else if |s| >= 3 && IsWiderSpace(s[0], s[1], s[2]) then TrimLeft(s[3..])
    else s
  }

  function TrimRight(s: bytes): bytes {
    var n := |s|;
    if n >= 1 && IsSpace(s[n - 1]) then TrimRight(s[..n - 1])
    else if n >= 2 && IsWideSpace(s[n - 2], s[n - 1]) then TrimRight(s[..n - 2])
    else if n >= 3 && IsWiderSpace(s[n - 3], s[n - 2], s[n - 1]) then TrimRight(s[..n - 3])
    else s
  }

  predicate IsE(b: byte) { b == 69 || b == 101 }

  /** Where the exponent starts, or the length when there is none. */
  function IndexE(s: bytes, i: nat): (k: nat)
    requires i <= |s|
    ensures i <= k <= |s| && (k < |s| ==> IsE(s[k])) && forall j :: i <= j < k ==> !IsE(s[j])
    decreases |s| - i
  {
    if i == |s| || IsE(s[i]) then i else IndexE(s, i + 1)
  }

  predicate HasSign(s: bytes) { s != [] && (s[0] == MINUS || s[0] == PLUS) }

  function Unsigned(s: bytes): bytes { if HasSign(s) then s[1..] else s }

  /** An exponent: an optional sign and one to five digits. */
  function ExponentOf(tail: bytes): Option<int> {
    var digits := Unsigned(tail);
    if digits == [] || !AllDigits(digits) || |digits| > 5 then None else TextInt(tail)
  }

  /** The decimal a mantissa and an exponent denote, with a negative scale spelled out in zeros. */
  function Assemble(mant: bytes, exp: int): Option<Decimal> {
    var body := Unsigned(mant);
    var (intPart, fracPart) := CutAt(body, POINT, 0);
    if intPart == [] && fracPart == [] then None
    else if !AllDigits(intPart + fracPart) then None
    else
      var n: int := TextNat(intPart + fracPart);
      var u := if HasSign(mant) && mant[0] == MINUS then -n else n;
      var scale := |fracPart| - exp;
      Some(if scale < 0 then Decimal(u * Pow10(-scale), 0) else Decimal(u, scale))
  }

  function ParseText(s: bytes): Option<Decimal> {
    var text := TrimRight(TrimLeft(s));
    var i := IndexE(text, 0);
    if text == [] then None
    else if i == |text| then Assemble(text, 0)
    else match ExponentOf(text[i + 1..]) case Some(exp) => Assemble(text[..i], exp) case None => None
  }

  method IsAllDigits(s: bytes) returns (b: bool)
    ensures b <==> s != [] && AllDigits(s)
  {
    if s == [] { return false; }
    for i := 0 to |s|
      invariant AllDigits(s[..i])
    {
      if s[i] < 48 || s[i] > 57 { return false; }
      assert s[..i + 1] == s[..i] + [s[i]];
    }
    assert s[..|s|] == s;
    return true;
  }

  method ReadDigits(s: bytes) returns (n: nat)
    requires AllDigits(s)
    ensures n == TextNat(s)
  {
    n := 0;
    for k := 0 to |s|
      invariant AllDigits(s[..k]) && n == TextNat(s[..k])
    {
      assert s[..k + 1][..k] == s[..k];
      n := n * 10 + (s[k] - 48);
    }
    assert s[..|s|] == s;
  }

  /** Separates the mantissa from a trailing exponent. */
  method SplitExponent(s: bytes) returns (r: Option<(bytes, int)>)
    ensures var i := IndexE(s, 0);
            r == if i == |s| then Some((s, 0))
                 else match ExponentOf(s[i + 1..]) case Some(e) => Some((s[..i], e)) case None => None
  {
    var i := 0;
    while i < |s| && !IsE(s[i])
      invariant 0 <= i <= |s| && IndexE(s, 0) == IndexE(s, i)
    {
      i := i + 1;
    }
    if i == |s| { return Some((s, 0)); }
    var tail := s[i + 1..];
    var neg := false;
    if tail != [] && tail[0] == MINUS { neg, tail := true, tail[1..]; }
    else if tail != [] && tail[0] == PLUS { tail := tail[1..]; }
    var digits := IsAllDigits(tail);
    if tail == [] || !digits || |tail| > 5 { return None; }
    var n: int := ReadDigits(tail);
    return Some((s[..i], if neg then -n else n));
  }

  method ParseDecimal(s: bytes) returns (r: Option<Decimal>)
    ensures r == ParseText(s)
  {
    hide TextNat, CutAt, TrimLeft, TrimRight, Pow10, ExponentOf, IsE;
    var text := TrimRight(TrimLeft(s));
    if text == [] { return None; }
    var split := SplitExponent(text);
    if split.None? { return None; }
    var mant, exp := split.value.0, split.value.1;
    var neg, body := false, mant;
    if mant != [] && mant[0] == MINUS { neg, body := true, mant[1..]; }
    else if mant != [] && mant[0] == PLUS { body := mant[1..]; }
    var intPart, fracPart := Cut(body, POINT);
    if intPart == [] && fracPart == [] { return None; }
    var digits := IsAllDigits(intPart + fracPart);
    if !digits { return None; }
    var unscaled: int := TextNat(intPart + fracPart);
    if neg { unscaled := -unscaled; }
    var scale := |fracPart| - exp;
    if scale < 0 { return Some(Decimal(unscaled * Pow10(-scale), 0)); }
    return Some(Decimal(unscaled, scale));
  }

  // ---- the round trip ----

  /** A rendered magnitude is digits, a point, and `scale` digits, or digits alone. */
  lemma PlacedParts(n: nat, scale: nat) returns (intPart: bytes, fracPart: bytes)
    ensures var body := PlacePoint(NatText(n), scale);
            && intPart != [] && AllDigits(intPart) && AllDigits(fracPart) && |fracPart| == scale
            && body == (if scale == 0 then intPart else intPart + [POINT] + fracPart)
            && TextNat(intPart + fracPart) == n
            && intPart == (if |NatText(n)| <= scale then [ZERO] else NatText(n)[..|NatText(n)| - scale])
  {
    hide NatText, TextNat;
    var digits := NatText(n);
    NatTextReads(n);
    if scale == 0 {
      intPart, fracPart := digits, [];
      assert digits + [] == digits;
    } else if |digits| <= scale {
      intPart, fracPart := [ZERO], Zeros(scale - |digits|) + digits;
      PaddedParts(digits, scale);
    } else {
      intPart, fracPart := digits[..|digits| - scale], digits[|digits| - scale..];
      assert intPart + fracPart == digits;
    }
  }

  lemma PaddedParts(digits: bytes, scale: nat)
    requires AllDigits(digits) && |digits| <= scale
    ensures var fracPart := Zeros(scale - |digits|) + digits;
            && AllDigits(fracPart) && TextNat([ZERO] + fracPart) == TextNat(digits)
            && [ZERO, POINT] + Zeros(scale - |digits|) + digits == [ZERO] + [POINT] + fracPart
  {
    hide TextNat;
    var pad := Zeros(scale - |digits| + 1);
    TextNatZeros(scale - |digits| + 1);
    TextNatAppend(pad, digits);
    assert [ZERO] + (Zeros(scale - |digits|) + digits) == pad + digits;
  }

  lemma CutWhole(s: bytes, sep: byte, i: nat)
    requires i <= |s| && forall j :: 0 <= j < |s| ==> s[j] != sep
    ensures CutAt(s, sep, i) == (s, [])
    decreases |s| - i
  {
    if i < |s| { CutWhole(s, sep, i + 1); }
  }

  lemma CutPlaced(intPart: bytes, fracPart: bytes)
    requires AllDigits(intPart)
    ensures CutAt(intPart + [POINT] + fracPart, POINT, 0) == (intPart, fracPart)
    ensures CutAt(intPart, POINT, 0) == (intPart, [])
  {
    var s := intPart + [POINT] + fracPart;
    CutFinds(s, POINT, |intPart|, 0);
    assert s[..|intPart|] == intPart && s[|intPart| + 1..] == fracPart;
    CutWhole(intPart, POINT, 0);
  }

  /** ASCII bytes that are neither space nor exponent marks, so that trimming and splitting keep them. */
  predicate Plain(s: bytes) { forall i :: 0 <= i < |s| ==> s[i] < 128 && !IsSpace(s[i]) && !IsE(s[i]) }

  lemma PlainKept(s: bytes)
    requires Plain(s) && s != []
    ensures TrimRight(TrimLeft(s)) == s && IndexE(s, 0) == |s|
  {}

  lemma AssembleOfRender(d: Decimal)
    ensures Assemble(Render(d), 0) == Some(d) && Plain(Render(d)) && Render(d) != []
  {
    hide NatText, TextNat, PlacePoint, Pow10, CutAt;
    var s, body := Render(d), PlacePoint(NatText(Abs(d.unscaled)), d.scale);
    var intPart, fracPart := PlacedParts(Abs(d.unscaled), d.scale);
    CutPlaced(intPart, fracPart);
    assert IsDigit(intPart[0]) && body[0] == intPart[0];
    assert Unsigned(s) == body;
    if d.scale == 0 { assert fracPart == []; }
    assert AllDigits(intPart + fracPart);
    assert Plain(body);
  }

  /** Parsing what was rendered gives back the same digits at the same scale. */
  lemma ParseOfRender(d: Decimal)
    ensures ParseText(Render(d)) == Some(d)
  {
    hide Assemble, Render, Plain, TrimLeft, TrimRight;
    AssembleOfRender(d);
    PlainKept(Render(d));
  }

  /** An exponent multiplies by its power of ten and changes nothing else. */
  lemma ExponentShifts(mant: bytes, exp: int)
    requires Assemble(mant, 0).Some?
    ensures Assemble(mant, exp).Some?
    ensures var a, z := Assemble(mant, exp).value, Assemble(mant, 0).value;
            a.unscaled * (Pow10(z.scale) * Pow10(if exp < 0 then -exp else 0))
              == z.unscaled * (Pow10(a.scale) * Pow10(if exp < 0 then 0 else exp))
  {
    hide CutAt, TextNat, Pow10;
    var a, z := Assemble(mant, exp).value, Assemble(mant, 0).value;
    var up, down := if exp < 0 then 0 else exp, if exp < 0 then -exp else 0;
    if exp <= z.scale {
      Pow10Add(z.scale, down);
      Pow10Add(a.scale, up);
    } else {
      PowZero();
      Pow10Add(exp - z.scale, z.scale);
      MulAssoc(z.unscaled, Pow10(exp - z.scale), Pow10(z.scale));
    }
  }

  lemma PowZero()
    ensures Pow10(0) == 1
  {}

  /** A rendering is a minus sign for a negative number, digits that begin with a zero only when it stands
      alone, and a point with as many digits after it as the scale says. */
  lemma RenderShape(d: Decimal) returns (i: bytes, f: bytes)
    ensures Render(d) == (if d.unscaled < 0 then [45] else []) + i + (if d.scale > 0 then [46] + f else [])
    ensures AllDigits(i + f) && |f| == d.scale && i != [] && (i[0] == 48 ==> |i| == 1)
    ensures TextNat(i + f) == if d.unscaled < 0 then -d.unscaled else d.unscaled
  {
    hide NatText, TextNat, PlacePoint, Pow10, CutAt;
    var n := Abs(d.unscaled);
    i, f := PlacedParts(n, d.scale);
    assert d.unscaled < 0 ==> [45] + (i + [46] + f) == [45] + i + ([46] + f);
    assert d.unscaled >= 0 ==> [] + (i + [46] + f) == [] + i + ([46] + f);
    if n > 0 { NatTextLeads(n); }
    ZeroText();
  }

  lemma ZeroText()
    ensures NatText(0) == [48]
  {}

  lemma AssembleReads(sign: bytes, i: bytes, f: bytes)
    requires (sign == [] || sign == [45] || sign == [43]) && AllDigits(i) && AllDigits(f) && i + f != []
    ensures var n: int := TextNat(i + f);
            Assemble(sign + (i + [46] + f), 0) == Some(Decimal(if sign == [45] then -n else n, |f|))
    ensures var n: int := TextNat(i + f);
            f == [] ==> Assemble(sign + i, 0) == Some(Decimal(if sign == [45] then -n else n, 0))
  {
    hide TextNat, CutAt, Assemble, Unsigned, HasSign;
    CutPlaced(i, f);
    var body := i + [46] + f;
    assert body[0] == (if i == [] then 46 else i[0]);
    SignPeels(sign, body);
    AssembleParts(sign + body, body, i, f, sign == [45]);
    if f == [] {
      assert i + f == i;
      SignPeels(sign, i);
      AssembleParts(sign + i, i, i, f, sign == [45]);
    }
  }

  lemma AssembleParts(mant: bytes, body: bytes, i: bytes, f: bytes, neg: bool)
    requires Unsigned(mant) == body && (neg <==> HasSign(mant) && mant[0] == MINUS)
    requires CutAt(body, POINT, 0) == (i, f) && AllDigits(i) && AllDigits(f) && i + f != []
    ensures var n: int := TextNat(i + f);
            Assemble(mant, 0) == Some(Decimal(if neg then -n else n, |f|))
  {
    hide TextNat, CutAt, Unsigned, HasSign;
  }

  lemma SignPeels(sign: bytes, body: bytes)
    requires (sign == [] || sign == [45] || sign == [43]) && body != [] && body[0] != 45 && body[0] != 43
    ensures Unsigned(sign + body) == body && ((HasSign(sign + body) && (sign + body)[0] == MINUS) <==> sign == [45])
  {
    if sign != [] { assert (sign + body)[1..] == body; } else { assert sign + body == body; }
  }

  lemma PlainParses(s: bytes)
    requires Plain(s) && s != []
    ensures ParseText(s) == Assemble(s, 0)
  {
    hide Plain, TrimLeft, TrimRight, Assemble;
    PlainKept(s);
  }

  lemma PlainJoins(s: bytes, t: bytes)
    ensures Plain(s) && Plain(t) ==> Plain(s + t)
  {}

  /** Digits with a point anywhere among them, after an optional sign, are read as they stand. */
  lemma ParseReads(sign: bytes, i: bytes, f: bytes)
    requires (sign == [] || sign == [45] || sign == [43]) && AllDigits(i) && AllDigits(f) && i + f != []
    ensures var n: int := TextNat(i + f);
            ParseText(sign + (i + [46] + f)) == Some(Decimal(if sign == [45] then -n else n, |f|))
    ensures var n: int := TextNat(i + f);
            f == [] ==> ParseText(sign + i) == Some(Decimal(if sign == [45] then -n else n, 0))
  {
    hide TextNat, Assemble, ParseText;
    AssembleReads(sign, i, f);
    assert Plain(sign) && Plain(i) && Plain([46]) && Plain(f);
    hide Plain;
    PlainJoins(i, [46]);
    PlainJoins(i + [46], f);
    PlainJoins(sign, i + [46] + f);
    PlainJoins(sign, i);
    PlainParses(sign + (i + [46] + f));
    if f == [] { assert i + f == i; PlainParses(sign + i); }
  }

  lemma ShortText(e: nat)
    requires e <= 99999
    ensures |NatText(e)| <= 5
  {
    if e > 0 {
      NatTextLength(e);
      TenThousand();
      assert Pow10(5) == 10 * Pow10(4);
      LengthBound(e, |NatText(e)|, 5);
    }
  }

  /** An exponent is the number its sign and digits denote. */
  lemma ExponentDenotes(e: int)
    requires -99999 <= e <= 99999
    ensures ExponentOf(IntText(e)) == Some(e) && (e >= 0 ==> ExponentOf([43] + NatText(e)) == Some(e))
  {
    hide NatText, TextNat, Pow10;
    ShortText(Abs(e));
    IntTextReads(e);
    NatTextReads(Abs(e));
    assert IsDigit(NatText(Abs(e))[0]);
    assert ([45] + NatText(Abs(e)))[1..] == NatText(Abs(e)) && ([43] + NatText(Abs(e)))[1..] == NatText(Abs(e));
  }

  lemma {:induction false} IndexAt(s: bytes, i: nat, k: nat)
    requires i <= k < |s| && IsE(s[k]) && forall j :: i <= j < k ==> !IsE(s[j])
    ensures IndexE(s, i) == k
  {}

  lemma TrimKeeps(s: bytes)
    requires s != [] && s[0] < 128 && !IsSpace(s[0]) && s[|s| - 1] < 128 && !IsSpace(s[|s| - 1])
    ensures TrimRight(TrimLeft(s)) == s
  {}

  /** An exponent after a rendering multiplies the number by that power of ten. */
  lemma ExponentScales(d: Decimal, mark: byte, e: int, tail: bytes)
    requires mark == 101 || mark == 69
    requires -99999 <= e <= 99999 && (tail == IntText(e) || (e >= 0 && tail == [43] + NatText(e)))
    ensures var r := ParseText(Render(d) + [mark] + tail);
            r.Some? && Val(r.value) == Val(d) * TenTo(e)
  {
    hide Assemble, Render, Plain, ParseText, Pow10, Val, TenTo, NatText, IntText;
    AssembleOfRender(d);
    ExponentDenotes(e);
    EndsInDigit(e);
    SplitsAtMark(Render(d), mark, tail);
    ExponentShifts(Render(d), e);
    ShiftedVal(Assemble(Render(d), e).value, d, e);
  }

  lemma EndsInDigit(e: int)
    ensures var s := IntText(e); s != [] && IsDigit(s[|s| - 1])
    ensures e >= 0 ==> var s := [43] + NatText(e); IsDigit(s[|s| - 1])
  {
    hide NatText;
    assert IsDigit(NatText(Abs(e))[|NatText(Abs(e))| - 1]);
  }

  lemma SplitsAtMark(mant: bytes, mark: byte, tail: bytes)
    requires Plain(mant) && mant != [] && IsE(mark) && tail != [] && IsDigit(tail[|tail| - 1])
    ensures ParseText(mant + [mark] + tail) == match ExponentOf(tail) case Some(exp) => Assemble(mant, exp) case None => None
  {
    hide Assemble, TrimLeft, TrimRight, ExponentOf;
    var s, k := mant + [mark] + tail, |mant|;
    IndexAt(s, 0, k);
    assert s[..k] == mant && s[k + 1..] == tail;
    TrimKeeps(s);
  }

  lemma ShiftedVal(a: Decimal, z: Decimal, e: int)
    requires var up, down := if e < 0 then 0 else e, if e < 0 then -e else 0;
             a.unscaled * (Pow10(z.scale) * Pow10(down)) == z.unscaled * (Pow10(a.scale) * Pow10(up))
    ensures Val(a) == Val(z) * TenTo(e)
  {
    hide Pow10, Val, TenTo;
    var up, down := if e < 0 then 0 else e, if e < 0 then -e else 0;
    ValTimes(a);
    ValTimes(z);
    TenToShift(e, down);
    var pa, pz, pu, pd := Pow10(a.scale), Pow10(z.scale), Pow10(up), Pow10(down);
    CastMul(pz, pd);
    CastMul(pa, pu);
    CastMul(a.unscaled, pz * pd);
    CastMul(z.unscaled, pa * pu);
    CrossCancel(Val(a), Val(z), TenTo(e), pa as real, pz as real, pd as real, pu as real);
  }

  lemma CrossCancel(a: real, z: real, t: real, pa: real, pz: real, pd: real, pu: real)
    requires pa > 0.0 && pz > 0.0 && pd > 0.0 && t * pd == pu
    requires (a * pa) * (pz * pd) == (z * pz) * (pa * pu)
    ensures a == z * t
  {
    var k := pa * (pz * pd);
    assert (a * pa) * (pz * pd) == a * k;
    assert (z * pz) * (pa * (t * pd)) == (z * t) * k;
    if a < z * t { LessTimes(a, z * t, k); } else if a > z * t { LessTimes(z * t, a, k); }
  }

  // ---- declared precision ----

  /** How many digits the rendering has left of the point; a lone zero counts as none. */
  function DigitsBefore(d: Decimal): nat {
    var text := Render(d);
    var whole := CutAt(if text != [] && text[0] == MINUS then text[1..] else text, POINT, 0).0;
    if whole == [ZERO] then 0 else |whole|
  }

  lemma WholeDigits(d: Decimal)
    ensures var n := Abs(d.unscaled);
            DigitsBefore(d) == if n > 0 && |NatText(n)| > d.scale then |NatText(n)| - d.scale else 0
  {
    hide TextNat, PlacePoint, CutAt, Pow10;
    var n := Abs(d.unscaled);
    var text, digits := Render(d), NatText(n);
    var intPart, fracPart := PlacedParts(n, d.scale);
    CutPlaced(intPart, fracPart);
    assert IsDigit(intPart[0]) && PlacePoint(digits, d.scale)[0] == intPart[0];
    assert (if text != [] && text[0] == MINUS then text[1..] else text) == PlacePoint(digits, d.scale);
    if n > 0 {
      NatTextLeads(n);
      if |digits| > d.scale { assert intPart[0] == digits[0]; }
    }
  }

  /** At most `k` digits before the point means a magnitude below ten to the `k`. */
  lemma DigitsBeforeBound(d: Decimal, k: nat)
    ensures DigitsBefore(d) <= k <==> Abs(d.unscaled) < Pow10(k + d.scale)
  {
    hide NatText, DigitsBefore, Pow10;
    WholeDigits(d);
    var n := Abs(d.unscaled);
    if n > 0 {
      NatTextLength(n);
      LengthBound(n, |NatText(n)|, k + d.scale);
    }
  }

  /** A number of `len` digits is below ten to the `m` exactly when `len` is at most `m`. */
  lemma LengthBound(n: nat, len: nat, m: nat)
    requires len >= 1 && Pow10(len - 1) <= n < Pow10(len)
    ensures n < Pow10(m) <==> len <= m
  {
    if len <= m { Pow10Mono(len, m); } else { Pow10Mono(m, len - 1); }
  }

  /** Rounds to the declared scale and refuses what the declared precision cannot hold. */
  function FitNumeric(v: Value, precision: nat, scale: nat): Option<Value> {
    var d := Round(AsDecimal(v), scale);
    if DigitsBefore(d) > precision - scale then None else Some(Numeric(d))
  }

  /** What is stored has the declared scale. It is the number itself when that is no narrower than the
      number's own; otherwise it is off by at most half a unit of the last place, and by exactly half only
      away from zero. A number is refused exactly when half a unit more would reach the first power of ten
      the declared precision has no room for. */
  lemma FitNumericIff(v: Value, precision: nat, scale: nat)
    requires ValidNumeric(v) && scale <= MAX_INT32
    ensures var fit, x := FitNumeric(v, precision, scale), Val(AsDecimal(v));
            && (fit.Some? <==> scale <= precision && Size(x) + 0.5 / Pow10(scale) as real < Pow10(precision - scale) as real)
            && (fit.Some? ==>
                  && ValidNumeric(fit.value) && AsDecimal(fit.value).scale == scale
                  && (var y := Val(AsDecimal(fit.value));
                      && (scale >= AsDecimal(v).scale ==> y == x)
                      && Size(y - x) * (2.0 * Pow10(scale) as real) <= 1.0
                      && (Size(y - x) * (2.0 * Pow10(scale) as real) == 1.0 ==> Size(y) > Size(x))))
  {
    hide RoundQuo, Pow10, DigitsBefore, Numeric, AsDecimal, ValidNumeric, Val, Size;
    var d := Round(AsDecimal(v), scale);
    if scale <= precision {
      DigitsBeforeBound(d, precision - scale);
      RoundBelow(AsDecimal(v), scale, precision - scale);
    }
    NumericReads(d);
    RoundIsNearest(AsDecimal(v), scale);
  }

  /** Rounding stays below a power of ten exactly when half a unit more would not reach it. */
  lemma RoundBelow(d: Decimal, scale: nat, k: nat)
    ensures Abs(Round(d, scale).unscaled) < Pow10(k + scale) <==>
            Size(Val(d)) + 0.5 / Pow10(scale) as real < Pow10(k) as real
  {
    hide RoundQuo, Pow10, Val, HalfUp, Abs, Size;
    var r, ps, pk := Round(d, scale), Pow10(scale), Pow10(k);
    Pow10Add(k, scale);
    ValTimes(d);
    ValTimes(r);
    if scale >= d.scale {
      RoundWidens(d, scale);
      SizeTimes(Val(d), ps as real, r.unscaled);
      assert HalfUp(Abs(r.unscaled), 1, Abs(r.unscaled)) by { HalfUpItself(Abs(r.unscaled)); }
      Below(Size(Val(d)), Abs(r.unscaled), Abs(r.unscaled), pk, ps, 1, ps);
    } else {
      RoundIsHalfAway(d, scale);
      Pow10Add(scale, d.scale - scale);
      SizeTimes(Val(d), Pow10(d.scale) as real, d.unscaled);
      Below(Size(Val(d)), Abs(r.unscaled), Abs(d.unscaled), pk, ps, Pow10(d.scale - scale), Pow10(d.scale));
    }
  }

  lemma HalfUpItself(n: nat)
    ensures HalfUp(n, 1, n)
  {}

  lemma Below(x: real, q: nat, n: nat, pk: int, ps: int, drop: int, z: int)
    requires ps > 0 && drop > 0 && z == ps * drop && x * z as real == n as real && HalfUp(n, drop, q)
    ensures q < pk * ps <==> x + 0.5 / ps as real < pk as real
  {
    hide HalfUp;
    CastMul(ps, drop);
    HalfUnder(x, ps as real, pk as real, drop as real, n as real);
    HalfBelow(n, drop, q, pk, ps);
  }

  lemma HalfUnder(x: real, ps: real, pk: real, drop: real, n: real)
    requires ps > 0.0 && drop > 0.0 && x * (ps * drop) == n
    ensures x + 0.5 / ps < pk <==> 2.0 * n + drop < 2.0 * ((pk * ps) * drop)
  {
    var h, z := 0.5 / ps, ps * drop;
    assert h * ps == 0.5;
    assert h * z == 0.5 * drop by { assert h * (ps * drop) == (h * ps) * drop; }
    assert (x + h) * z == n + 0.5 * drop;
    assert pk * z == (pk * ps) * drop;
    if x + h < pk { LessTimes(x + h, pk, z); } else { RealMono(pk, x + h, z); }
  }

  lemma HalfBelow(n: nat, drop: int, q: nat, pk: int, ps: int)
    requires drop > 0 && HalfUp(n, drop, q)
    ensures q < pk * ps <==> 2.0 * n as real + drop as real < 2.0 * ((pk as real * ps as real) * drop as real)
  {
    var p := pk * ps;
    CastMul(pk, ps);
    CastMul(p, drop);
    Doubled(drop, q);
    if q < p { MulMono(q, p - 1, drop); } else { MulMono(p, q, drop); }
    assert (p - 1) * drop == p * drop - drop;
  }
}
