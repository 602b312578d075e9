/** Powers of ten, truncating division, and the decimal text of integers. */
module Digits {
  import opened Values

  // ---- powers of ten ----

  function Pow10(n: nat): (r: nat)
    ensures r >= 1
  {
    if n == 0 then 1 else 10 * Pow10(n - 1)
  }

  lemma {:induction false} Pow10Add(m: nat, n: nat)
    ensures Pow10(m + n) == Pow10(m) * Pow10(n)
  {
    if m > 0 {
      Pow10Add(m - 1, n);
      MulAssoc(10, Pow10(m - 1), Pow10(n));
    }
  }

  lemma MulAssoc(a: int, b: int, c: int)
    ensures a * (b * c) == (a * b) * c
  {}

  lemma {:induction false} Pow10Less(m: nat, n: nat)
    requires m < n
    ensures 10 * Pow10(m) <= Pow10(n)
  {
    if m < n - 1 { Pow10Less(m, n - 1); }
  }

  lemma MulMono(a: int, b: int, c: nat)
    requires a <= b
    ensures a * c <= b * c
  {}

  lemma MulStrict(a: int, b: int, c: int)
    requires a < b && c > 0
    ensures a * c < b * c
  {}

  lemma MulCancel(a: int, b: int, c: int)
    requires c > 0 && a * c <= b * c
    ensures a <= b
  {
    if a > b { MulStrict(b, a, c); }
  }

  lemma MulCancelStrict(a: int, b: int, c: int)
    requires c > 0 && a * c < b * c
    ensures a < b
  {
    if a >= b { MulMono(b, a, c); }
  }

  // ---- division that truncates towards zero ----

  function Abs(x: int): nat { if x < 0 then -x else x }

  function Sign(x: int): int { if x < 0 then -1 else if x > 0 then 1 else 0 }

  function Quo(a: int, b: int): int
    requires b != 0
  {
    if (a < 0) == (b < 0) then Abs(a) / Abs(b) else -(Abs(a) / Abs(b))
  }

  function Rem(a: int, b: int): int
    requires b != 0
  {
    if a < 0 then -(Abs(a) % Abs(b)) else Abs(a) % Abs(b)
  }

  /** The remainder has the dividend's sign and is smaller than the divisor. */
  lemma QuoRem(a: int, b: int)
    requires b != 0
    ensures a == Quo(a, b) * b + Rem(a, b)
    ensures Abs(Rem(a, b)) < Abs(b) && (Rem(a, b) == 0 || Sign(Rem(a, b)) == Sign(a))
  {
    hide Quo, Rem;
    var q, r := QuoParts(a, b);
    Signed(a, b, q, r);
  }

  lemma QuoParts(a: int, b: int) returns (q: int, r: int)
    requires b != 0
    ensures Abs(a) == q * Abs(b) + r && 0 <= r < Abs(b)
    ensures Quo(a, b) == (if (a < 0) == (b < 0) then q else -q) && Rem(a, b) == (if a < 0 then -r else r)
  {
    q, r := Abs(a) / Abs(b), Abs(a) % Abs(b);
    DivMod(Abs(a), Abs(b));
  }

  lemma DivMod(a: nat, b: nat)
    requires b != 0
    ensures a == (a / b) * b + a % b && a % b < b
  {}

  lemma Signed(a: int, b: int, q: int, r: int)
    requires Abs(a) == q * Abs(b) + r && 0 <= r < Abs(b)
    ensures a == (if (a < 0) == (b < 0) then q else -q) * b + (if a < 0 then -r else r)
  {
    assert b < 0 ==> q * Abs(b) == -(q * b);
    assert (-q) * b == -(q * b);
  }

  // ---- decimal text ----

  const ZERO: byte := 48
  const MINUS: byte := 45
  const PLUS: byte := 43

  predicate IsDigit(b: byte) { 48 <= b <= 57 }

  predicate AllDigits(s: bytes) { forall i :: 0 <= i < |s| ==> IsDigit(s[i]) }

  function NatText(n: nat): (s: bytes)
    ensures |s| >= 1 && AllDigits(s)
  {
    if n < 10 then [48 + n] else NatText(n / 10) + [48 + n % 10]
  }

  function IntText(i: int): bytes { if i < 0 then [MINUS] + NatText(-i) else NatText(i) }

  function TextNat(s: bytes): nat
    requires AllDigits(s)
  {
    if s == [] then 0 else TextNat(s[..|s| - 1]) * 10 + (s[|s| - 1] - 48)
  }

  /** Reads an optional sign and at least one digit. */
  function TextInt(s: bytes): Option<int> {
    var signed := s != [] && (s[0] == MINUS || s[0] == PLUS);
    var digits := if signed then s[1..] else s;
    if digits == [] || !AllDigits(digits) then None
    else
      var n: int := TextNat(digits);
      Some(if signed && s[0] == MINUS then -n else n)
  }

  lemma {:induction false} NatTextReads(n: nat)
    ensures TextNat(NatText(n)) == n
  {
    if n >= 10 {
      NatTextReads(n / 10);
      assert (NatText(n / 10) + [48 + n % 10])[..|NatText(n / 10)|] == NatText(n / 10);
    } else {
      assert [48 + n][..0] == [];
    }
  }

  lemma IntTextReads(i: int)
    ensures TextInt(IntText(i)) == Some(i)
  {
    NatTextReads(Abs(i));
    assert IsDigit(NatText(Abs(i))[0]);
    if i < 0 { assert ([MINUS] + NatText(-i))[1..] == NatText(-i); }
  }

  /** A number of k digits lies between consecutive powers of ten. */
  lemma {:induction false} NatTextLength(n: nat)
    requires n > 0
    ensures Pow10(|NatText(n)| - 1) <= n < Pow10(|NatText(n)|)
  {
    if n >= 10 {
      NatTextLength(n / 10);
      var k := |NatText(n / 10)|;
      assert Pow10(k + 1) == 10 * Pow10(k) && Pow10(k) == 10 * Pow10(k - 1);
    } else {
      assert Pow10(1) == 10 * Pow10(0);
    }
  }

  /** No text but "0" begins with a zero. */
  lemma {:induction false} NatTextLeads(n: nat)
    requires n > 0
    ensures NatText(n)[0] != ZERO
  {
    if n >= 10 { NatTextLeads(n / 10); }
  }

  lemma {:induction false} TextNatAppend(s: bytes, t: bytes)
    requires AllDigits(s) && AllDigits(t)
    ensures AllDigits(s + t) && TextNat(s + t) == TextNat(s) * Pow10(|t|) + TextNat(t)
  {
    if t == [] {
      assert s + t == s;
    } else {
      var u, c := t[..|t| - 1], t[|t| - 1];
      TextNatAppend(s, u);
      assert (s + t)[..|s + t| - 1] == s + u;
      TimesTen(TextNat(s), Pow10(|u|));
    }
  }

  lemma TimesTen(x: int, p: int)
    ensures (x * p) * 10 == x * (10 * p)
  {}

  lemma {:induction false} TextNatZeros(n: nat)
    ensures AllDigits(Zeros(n)) && TextNat(Zeros(n)) == 0
  {
    if n > 0 {
      TextNatZeros(n - 1);
      assert Zeros(n)[..n - 1] == Zeros(n - 1);
    }
  }

  function Zeros(n: nat): (s: bytes)
    ensures |s| == n && forall i :: 0 <= i < n ==> s[i] == ZERO
  {
    seq(n, i => ZERO)
  }
}
