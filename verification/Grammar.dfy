/** How the parser groups operators, stated on tokens against the rows of the grammar's precedence table. */
module Grammar {
  import opened Values
  import opened Parser

  // ---- the table, loosest row first ----

  const NOT_ROW := 3
  const IS_ROW := 4
  const RANGE_ROW := 6
  const SIGN_ROW := 11
  const CAST_ROW := 12

  /** The operator a symbol stands for, and its row. */
  predicate Row(n: nat, s: seq<Token>, op: BinaryOp) {
    || (n == 1 && s == [Or] && op == OpOr)
    || (n == 2 && s == [And] && op == OpAnd)
    || (n == 4 && ((s == [Is, Distinct, From] && op == OpDistinct) || (s == [Is, Not, Distinct, From] && op == OpNotDistinct)))
    || (n == 5 && ((s == [Eq] && op == OpEq) || (s == [NotEq] && op == OpNe) || (s == [Less] && op == OpLt)
                   || (s == [LessEq] && op == OpLe) || (s == [Greater] && op == OpGt) || (s == [GreaterEq] && op == OpGe)))
    || (n == 6 && ((s == [Like] && op == OpLike) || (s == [Not, Like] && op == OpNotLike)))
    || (n == 7 && ((s == [Plus] && op == OpAdd) || (s == [Minus] && op == OpSub) || (s == [Concat] && op == OpConcat)))
    || (n == 8 && ((s == [Arrow] && op == OpField) || (s == [LongArrow] && op == OpFieldText) || (s == [Contains] && op == OpContains)))
    || (n == 9 && ((s == [Star] && op == OpMul) || (s == [Slash] && op == OpDiv) || (s == [Percent] && op == OpMod)))
    || (n == 10 && s == [Caret] && op == OpExp)
  }

  /** What may follow an operand: an operator and its right side, or one of the mixfix forms. */
  datatype Tail =
    | OpTail(n: nat, s: seq<Token>, op: BinaryOp, y: Token)
    | NullTail(negate: bool)
    | TruthTail(negate: bool, truth: bool)
    | BetweenTail(negate: bool, lo: Token, hi: Token)
    | InTail(negate: bool, item: Token)
    | CastTail(typ: bytes)

  predicate IsTail(t: Tail) {
    match t
    case OpTail(n, s, op, y) => Row(n, s, op) && IsAtom(y)
    case BetweenTail(_, lo, hi) => IsAtom(lo) && IsAtom(hi)
    case InTail(_, item) => IsAtom(item)
    case CastTail(typ) => PlainType(typ)
    case _ => true
  }

  function TailRow(t: Tail): nat {
    match t
    case OpTail(n, _, _, _) => n
    case NullTail(_) => IS_ROW
    case TruthTail(_, _) => IS_ROW
    case BetweenTail(_, _, _) => RANGE_ROW
    case InTail(_, _) => RANGE_ROW
    case CastTail(_) => CAST_ROW
  }

  function TailTokens(t: Tail): seq<Token> {
    match t
    case OpTail(_, s, _, y) => s + [y]
    case NullTail(negate) => if negate then [Is, Not, Null] else [Is, Null]
    case TruthTail(negate, truth) => (if negate then [Is, Not] else [Is]) + [if truth then KwTrue else KwFalse]
    case BetweenTail(negate, lo, hi) => (if negate then [Not, Between] else [Between]) + [lo, And, hi]
    case InTail(negate, item) => (if negate then [Not, In] else [In]) + [LParen, item, RParen]
    case CastTail(typ) => [DoubleColon, Word(typ)]
  }

  /** The tree that the operand `x` and what follows it make. IS TRUE is IS NOT DISTINCT FROM TRUE. */
  function TailTree(t: Tail, x: Expr): Expr {
    match t
    case OpTail(_, _, op, y) => Binary(op, x, Atom(y))
    case NullTail(negate) => IsNull(x, negate)
    case TruthTail(negate, truth) => Binary(if negate then OpDistinct else OpNotDistinct, x, Atom(if truth then KwTrue else KwFalse))
    case BetweenTail(negate, lo, hi) => Range(x, negate, Atom(lo), Atom(hi))
    case InTail(negate, item) => InList(x, negate, Last(Atom(item)))
    case CastTail(typ) => Cast(x, typ)
  }

  // ---- the rows are the binding powers ----

  function RowPower(n: nat): nat {
    if n == 1 then BP_OR else if n == 2 then BP_AND else if n == 3 then BP_NOT else if n == 4 then BP_IS
    else if n == 5 then BP_COMPARE else if n == 6 then BP_RANGE else if n == 7 then BP_ADD else if n == 8 then BP_JSON
    else if n == 9 then BP_MUL else if n == 10 then BP_EXP else if n == 11 then BP_UNARY else BP_CAST
  }

  lemma RowPowers(n: nat, s: seq<Token>, op: BinaryOp)
    requires Row(n, s, op)
    ensures OpTokens(op) == s && OpPower(op) == RowPower(n) && 1 <= n <= 10 && n != NOT_ROW
  {}

  lemma PowersRise(m: nat, n: nat)
    requires 1 <= m <= 12 && 1 <= n <= 12
    ensures RowPower(m) < RowPower(n) <==> m < n
    ensures 0 < RowPower(m)
  {}

  function RowOf(op: BinaryOp): nat {
    match op
    case OpOr => 1
    case OpAnd => 2
    case OpDistinct => 4
    case OpNotDistinct => 4
    case OpLike => 6
    case OpNotLike => 6
    case OpAdd => 7
    case OpSub => 7
    case OpConcat => 7
    case OpField => 8
    case OpFieldText => 8
    case OpContains => 8
    case OpMul => 9
    case OpDiv => 9
    case OpMod => 9
    case OpExp => 10
    case _ => 5
  }

  lemma InItsRow(op: BinaryOp)
    ensures Row(RowOf(op), OpTokens(op), op)
  {}

  /** Every operator has exactly one symbol and one row. */
  lemma OneRowEach(op: BinaryOp)
    ensures forall n, s :: Row(n, s, op) <==> n == RowOf(op) && s == OpTokens(op)
  {
    hide Row, RowPower, RowOf, OpTokens, OpPower;
    InItsRow(op);
    RowPowers(RowOf(op), OpTokens(op), op);
    forall n, s | Row(n, s, op) ensures n == RowOf(op) && s == OpTokens(op) {
      RowPowers(n, s, op);
      PowersRise(n, RowOf(op));
      PowersRise(RowOf(op), n);
    }
  }

  // ---- one step of the parser ----

  lemma ReadAtom(min: nat, a: Token, rest: seq<Token>)
    requires IsAtom(a) && Clear(rest)
    ensures ParseExpr(min, [a] + rest) == ParseInfix(Atom(a), min, rest)
  {
    hide ParseExpr, ParseInfix;
    AtomParses(a, min, rest);
  }

  lemma ReadLast(min: nat, a: Token, rest: seq<Token>)
    requires IsAtom(a) && Clear(rest) && Halts(min, rest)
    ensures ParseExpr(min, [a] + rest) == Some((Atom(a), rest))
  {
    hide ParseExpr, ParseInfix, Halts;
    ReadAtom(min, a, rest);
    StopsExactly(Atom(a), min, rest);
  }

  lemma NothingAhead(min: nat)
    ensures Halts(min, []) && Clear([])
  {}

  /** What a tail says of itself: its power, and the turn it makes of the loop. */
  lemma TailTurn(t: Tail, x: Expr, min: nat, rest: seq<Token>)
    requires IsTail(t) && Clear(rest) && min <= RowPower(TailRow(t))
    requires t.OpTail? || t.BetweenTail? ==> Power(rest) <= RowPower(TailRow(t))
    ensures InfixTurn(x, min, TailTokens(t) + rest) == Go(TailTree(t, x), rest)
  {
    hide ParseExpr, InfixTurn, ParseItems, Power, Clear, Row, PlainType;
    match t
    case OpTail(n, s, op, y) =>
      RowPowers(n, s, op);
      HaltsAbove(rest, RowPower(n));
      ReadLast(OpPower(op) + 1, y, rest);
      BinaryTurn(op, x, min, Atom(y), [y] + rest, rest);
      assert s + [y] + rest == s + ([y] + rest);
    case NullTail(negate) =>
      IsNullTurn(x, min, negate, rest);
      assert [Is] + [Not] + [Null] == [Is, Not, Null] && [Is] + [] + [Null] == [Is, Null];
    case TruthTail(negate, truth) => TruthTurn(x, min, negate, if truth then KwTrue else KwFalse, rest);
    case BetweenTail(negate, lo, hi) =>
      HaltsAbove(rest, BP_RANGE);
      BetweenAtoms(x, min, negate, lo, hi, Atom(hi), [hi] + rest, rest) by { ReadLast(BP_RANGE + 1, hi, rest); }
      assert TailTokens(t) + rest == (if negate then [Not, Between] else [Between]) + ([lo, And] + ([hi] + rest));
    case InTail(negate, item) => InAtom(x, min, negate, item, rest);
    case CastTail(typ) => CastTurn(x, min, typ, rest);
  }

  lemma HaltsAbove(rest: seq<Token>, p: nat)
    requires Power(rest) <= p
    ensures Halts(p + 1, rest)
  {}

  lemma TruthTurn(x: Expr, min: nat, negate: bool, lit: Token, rest: seq<Token>)
    requires min <= BP_IS && (lit == KwTrue || lit == KwFalse)
    ensures InfixTurn(x, min, (if negate then [Is, Not] else [Is]) + [lit] + rest)
            == Go(Binary(if negate then OpDistinct else OpNotDistinct, x, Atom(lit)), rest)
  {
    hide ParseExpr;
    var ts, after := (if negate then [Is, Not] else [Is]) + [lit] + rest, [lit] + rest;
    assert after[1..] == rest;
    if negate { assert ts[1..] == [Not] + after && ([Not] + after)[1..] == after; } else { assert ts[1..] == after; }
  }

  lemma BetweenAtoms(x: Expr, min: nat, negate: bool, lo: Token, hi: Token, y: Expr, ts: seq<Token>, rest: seq<Token>)
    requires min <= BP_RANGE && IsAtom(lo) && ParseExpr(BP_RANGE + 1, ts) == Some((y, rest))
    ensures InfixTurn(x, min, (if negate then [Not, Between] else [Between]) + ([lo, And] + ts)) == Go(Range(x, negate, Atom(lo), y), rest)
  {
    hide ParseExpr, InfixTurn, Power;
    var mid := [And] + ts;
    AndAhead(ts);
    PowersRise(2, 6);
    ReadLast(BP_RANGE + 1, lo, mid);
    assert mid[1..] == ts;
    BetweenTurn(x, min, negate, Atom(lo), y, [lo] + mid, mid, rest);
    BetweenTokensAre(negate, lo, ts);
  }

  lemma BetweenTokensAre(negate: bool, lo: Token, ts: seq<Token>)
    ensures (if negate then [Not] else []) + ([Between] + ([lo] + ([And] + ts)))
            == (if negate then [Not, Between] else [Between]) + ([lo, And] + ts)
  {}

  lemma InAtom(x: Expr, min: nat, negate: bool, item: Token, rest: seq<Token>)
    requires min <= BP_RANGE && IsAtom(item)
    ensures InfixTurn(x, min, (if negate then [Not, In] else [In]) + [LParen, item, RParen] + rest)
            == Go(InList(x, negate, Last(Atom(item))), rest)
  {
    hide ParseExpr, ParseItems, InfixTurn, Power;
    var end := [RParen] + rest;
    Punctuation(RParen, rest);
    ReadLast(BP_NONE, item, end);
    LastItem([item] + end, Atom(item), end);
    assert end[1..] == rest;
    InTurn(x, min, negate, Last(Atom(item)), [item] + end, end, rest);
    InTokensAre(negate, item, rest);
  }

  lemma InTokensAre(negate: bool, item: Token, rest: seq<Token>)
    ensures (if negate then [Not] else []) + ([In, LParen] + ([item] + ([RParen] + rest)))
            == (if negate then [Not, In] else [In]) + [LParen, item, RParen] + rest
  {}

  /** How tightly a tail pulls on what is before it. */
  lemma TailAhead(t: Tail, rest: seq<Token>)
    requires IsTail(t)
    ensures Power(TailTokens(t) + rest) == RowPower(TailRow(t)) && Clear(TailTokens(t) + rest)
    ensures 1 <= TailRow(t) <= 12 && TailRow(t) != NOT_ROW && TailRow(t) != SIGN_ROW
  {
    hide PlainType, Row, Power, Clear, OpTokens;
    match t
    case OpTail(n, s, op, y) =>
      RowPowers(n, s, op);
      OpAhead(op, [y] + rest);
      assert s + [y] + rest == s + ([y] + rest);
    case NullTail(_) => PowerOfIs(TailTokens(t) + rest);
    case TruthTail(_, _) => PowerOfIs(TailTokens(t) + rest);
    case BetweenTail(negate, lo, hi) => PowerOfRange(negate, Between, [lo, And, hi], rest);
    case InTail(negate, item) => PowerOfRange(negate, In, [LParen, item, RParen], rest);
    case CastTail(typ) => PowerOfCast(TailTokens(t) + rest);
  }

  lemma PowerOfIs(ts: seq<Token>)
    requires ts != [] && ts[0] == Is
    ensures Power(ts) == BP_IS && Clear(ts)
  {}

  lemma PowerOfCast(ts: seq<Token>)
    requires ts != [] && ts[0] == DoubleColon
    ensures Power(ts) == BP_CAST && Clear(ts)
  {}

  lemma PowerOfRange(negate: bool, word: Token, more: seq<Token>, rest: seq<Token>)
    requires word == Between || word == In
    ensures var ts := (if negate then [Not, word] else [word]) + more + rest;
            Power(ts) == BP_RANGE && Clear(ts)
  {
    var ts := (if negate then [Not, word] else [word]) + more + rest;
    if negate { assert ts[1..][0] == word; }
  }

  // ---- grouping ----

  /** An operator and then another operator or a mixfix form: what comes second takes the operand between
      them exactly when its row is further down. Rows that are the same group from the left. */
  lemma Groups(a: Token, m: nat, s: seq<Token>, op: BinaryOp, b: Token, t: Tail)
    requires IsAtom(a) && IsAtom(b) && Row(m, s, op) && IsTail(t)
    ensures ParseExpr(0, [a] + s + [b] + TailTokens(t))
            == Some((if TailRow(t) > m then Binary(op, Atom(a), TailTree(t, Atom(b))) else TailTree(t, Binary(op, Atom(a), Atom(b))), []))
  {
    hide ParseExpr, ParseInfix, InfixTurn, Power, Clear, Halts, Row, IsTail, TailTokens, TailTree, TailRow;
    var p, tail := RowPower(m), TailTokens(t);
    RowPowers(m, s, op);
    TailAhead(t, []);
    assert tail + [] == tail;
    PowersRise(m, TailRow(t));
    NothingAhead(p + 1);
    NothingAhead(0);
    PowerOfNone();
    OpAhead(op, [b] + tail);
    ReadAtom(0, a, s + ([b] + tail));
    assert [a] + s + [b] + tail == [a] + (s + ([b] + tail));
    ReadAtom(p + 1, b, tail);
    if TailRow(t) > m {
      var y := TailTree(t, Atom(b));
      TailTurn(t, Atom(b), p + 1, []);
      GoOn(Atom(b), p + 1, tail, y, []);
      StopsExactly(y, p + 1, []);
      Extends(op, Atom(a), y, [b] + tail, []);
      StopsExactly(Binary(op, Atom(a), y), 0, []);
    } else {
      var x := Binary(op, Atom(a), Atom(b));
      HaltsAbove(tail, p);
      StopsExactly(Atom(b), p + 1, tail);
      Extends(op, Atom(a), Atom(b), [b] + tail, tail);
      TailTurn(t, x, 0, []);
      GoOn(x, 0, tail, TailTree(t, x), []);
      StopsExactly(TailTree(t, x), 0, []);
    }
  }

  lemma PowerOfNone()
    ensures Power([]) == 0
  {}

  lemma Extends(op: BinaryOp, x: Expr, y: Expr, ts: seq<Token>, rest: seq<Token>)
    requires ParseExpr(OpPower(op) + 1, ts) == Some((y, rest))
    ensures ParseInfix(x, 0, OpTokens(op) + ts) == ParseInfix(Binary(op, x, y), 0, rest)
  {
    hide ParseExpr, ParseInfix, InfixTurn, OpTokens;
    BinaryTurn(op, x, 0, y, ts, rest);
    GoOn(x, 0, OpTokens(op) + ts, Binary(op, x, y), rest);
  }

  /** A prefix operator takes what follows its operand exactly when that is further down than the prefix:
      NOT stands between AND and IS, the signs between ^ and the cast. */
  lemma PrefixGroups(u: Token, uop: UnaryOp, a: Token, t: Tail)
    requires (u == Not && uop == OpNot) || (u == Minus && uop == OpNeg) || (u == Plus && uop == OpPos)
    requires IsAtom(a) && IsTail(t)
    ensures ParseExpr(0, [u, a] + TailTokens(t))
            == Some((if TailRow(t) > (if u == Not then NOT_ROW else SIGN_ROW) then Unary(uop, TailTree(t, Atom(a))) else TailTree(t, Unary(uop, Atom(a))), []))
  {
    hide ParseExpr, ParseInfix, InfixTurn, Power, Clear, Halts, Row, IsTail, TailTokens, TailTree, TailRow;
    var row, tail := if u == Not then NOT_ROW else SIGN_ROW, TailTokens(t);
    var p := RowPower(row);
    TailAhead(t, []);
    assert tail + [] == tail;
    PowersRise(row, TailRow(t));
    PowersRise(TailRow(t), row);
    NothingAhead(p);
    NothingAhead(0);
    PowerOfNone();
    ReadAtom(p, a, tail);
    assert [u, a] + tail == [u] + ([a] + tail);
    if TailRow(t) > row {
      var y := TailTree(t, Atom(a));
      TailTurn(t, Atom(a), p, []);
      GoOn(Atom(a), p, tail, y, []);
      StopsExactly(y, p, []);
      Prefixed(0, u, uop, y, [a] + tail, []);
      StopsExactly(Unary(uop, y), 0, []);
    } else {
      var x := Unary(uop, Atom(a));
      StopsBelow(tail, p, TailRow(t), row);
      StopsExactly(Atom(a), p, tail);
      Prefixed(0, u, uop, Atom(a), [a] + tail, tail);
      TailTurn(t, x, 0, []);
      GoOn(x, 0, tail, TailTree(t, x), []);
      StopsExactly(TailTree(t, x), 0, []);
    }
  }

  lemma StopsBelow(tail: seq<Token>, p: nat, n: nat, row: nat)
    requires Power(tail) == RowPower(n) && p == RowPower(row) && n != row && !(RowPower(row) < RowPower(n)) && 1 <= n <= 12 && 1 <= row <= 12
    ensures Halts(p, tail)
  {}

  lemma Prefixed(min: nat, u: Token, uop: UnaryOp, x: Expr, ts: seq<Token>, rest: seq<Token>)
    requires (u == Not && uop == OpNot) || (u == Minus && uop == OpNeg) || (u == Plus && uop == OpPos)
    requires ParseExpr(RowPower(if u == Not then NOT_ROW else SIGN_ROW), ts) == Some((x, rest))
    ensures ParseExpr(min, [u] + ts) == ParseInfix(Unary(uop, x), min, rest)
  {
    hide ParseInfix;
    assert ([u] + ts)[1..] == ts;
  }

  /** An operator may have a prefix operator on its right, whatever their rows. */
  lemma PrefixOnTheRight(a: Token, m: nat, s: seq<Token>, op: BinaryOp, u: Token, uop: UnaryOp, b: Token)
    requires (u == Not && uop == OpNot) || (u == Minus && uop == OpNeg) || (u == Plus && uop == OpPos)
    requires IsAtom(a) && IsAtom(b) && Row(m, s, op)
    ensures ParseExpr(0, [a] + s + [u, b]) == Some((Binary(op, Atom(a), Unary(uop, Atom(b))), []))
  {
    hide ParseExpr, ParseInfix, InfixTurn, Power, Clear, Halts, Row;
    var p, y := RowPower(m), Unary(uop, Atom(b));
    var row := RowPower(if u == Not then NOT_ROW else SIGN_ROW);
    RowPowers(m, s, op);
    NothingAhead(row);
    NothingAhead(p + 1);
    NothingAhead(0);
    ReadLast(row, b, []);
    assert [b] + [] == [b] && [u, b] == [u] + [b];
    Prefixed(p + 1, u, uop, Atom(b), [b], []);
    StopsExactly(y, p + 1, []);
    OpAhead(op, [u, b]);
    ReadAtom(0, a, s + [u, b]);
    assert [a] + s + [u, b] == [a] + (s + [u, b]);
    Extends(op, Atom(a), y, [u, b], []);
    StopsExactly(Binary(op, Atom(a), y), 0, []);
  }

  /** The last operand of an operator or of BETWEEN ... AND takes an operator that is further down;
      otherwise, and after the forms that end by themselves, the whole is the operator's left side. */
  lemma GroupsAfter(a: Token, t: Tail, m: nat, s: seq<Token>, op: BinaryOp, b: Token)
    requires IsAtom(a) && IsAtom(b) && Row(m, s, op) && IsTail(t)
    ensures ParseExpr(0, [a] + TailTokens(t) + s + [b])
            == Some((if t.OpTail? && m > t.n then Binary(t.op, Atom(a), Binary(op, Atom(t.y), Atom(b)))
                     else if t.BetweenTail? && m > RANGE_ROW then Range(Atom(a), t.negate, Atom(t.lo), Binary(op, Atom(t.hi), Atom(b)))
                     else Binary(op, TailTree(t, Atom(a)), Atom(b)), []))
  {
    if t.OpTail? {
      Groups(a, t.n, t.s, t.op, t.y, OpTail(m, s, op, b));
      assert [a] + t.s + [t.y] + (s + [b]) == [a] + (t.s + [t.y]) + s + [b];
    } else if t.BetweenTail? && m > RANGE_ROW {
      UpperBound(a, t, m, s, op, b);
    } else {
      GroupsWhole(a, t, m, s, op, b);
    }
  }

  lemma UpperBound(a: Token, t: Tail, m: nat, s: seq<Token>, op: BinaryOp, b: Token)
    requires IsAtom(a) && IsAtom(b) && Row(m, s, op) && IsTail(t) && t.BetweenTail? && m > RANGE_ROW
    ensures ParseExpr(0, [a] + TailTokens(t) + s + [b]) == Some((Range(Atom(a), t.negate, Atom(t.lo), Binary(op, Atom(t.hi), Atom(b))), []))
  {
    hide ParseExpr, ParseInfix, InfixTurn, Power, Clear, Halts, Row;
    var more, y := OpTail(m, s, op, b), Binary(op, Atom(t.hi), Atom(b));
    RowPowers(m, s, op);
    PowersRise(RANGE_ROW, m);
    NothingAhead(BP_RANGE + 1);
    NothingAhead(0);
    PowerOfNone();
    TailAhead(more, []);
    assert s + [b] + [] == s + [b];
    ReadAtom(BP_RANGE + 1, t.hi, s + [b]);
    TailTurn(more, Atom(t.hi), BP_RANGE + 1, []);
    GoOn(Atom(t.hi), BP_RANGE + 1, s + [b], y, []);
    StopsExactly(y, BP_RANGE + 1, []);
    var after := (if t.negate then [Not, Between] else [Between]) + ([t.lo, And] + ([t.hi] + (s + [b])));
    BetweenAtoms(Atom(a), 0, t.negate, t.lo, t.hi, y, [t.hi] + (s + [b]), []);
    GoOn(Atom(a), 0, after, Range(Atom(a), t.negate, Atom(t.lo), y), []);
    StopsExactly(Range(Atom(a), t.negate, Atom(t.lo), y), 0, []);
    BoundTokens(t.negate, t.lo, t.hi, s + [b]);
    PowerOfRange(t.negate, Between, [t.lo, And, t.hi], s + [b]);
    ReadAtom(0, a, after);
    Regrouped(a, TailTokens(t), s, b);
  }

  lemma BoundTokens(negate: bool, lo: Token, hi: Token, ts: seq<Token>)
    ensures (if negate then [Not, Between] else [Between]) + ([lo, And] + ([hi] + ts))
            == (if negate then [Not, Between] else [Between]) + [lo, And, hi] + ts
  {}

  lemma Regrouped(a: Token, t: seq<Token>, s: seq<Token>, b: Token)
    ensures [a] + t + s + [b] == [a] + (t + (s + [b]))
  {}

  lemma GroupsWhole(a: Token, t: Tail, m: nat, s: seq<Token>, op: BinaryOp, b: Token)
    requires IsAtom(a) && IsAtom(b) && Row(m, s, op) && IsTail(t) && !t.OpTail? && (t.BetweenTail? ==> m <= RANGE_ROW)
    ensures ParseExpr(0, [a] + TailTokens(t) + s + [b]) == Some((Binary(op, TailTree(t, Atom(a)), Atom(b)), []))
  {
    hide ParseExpr, ParseInfix, InfixTurn, Power, Clear, Halts, Row, IsTail, TailTokens, TailTree;
    var x, rest := TailTree(t, Atom(a)), s + [b];
    RowPowers(m, s, op);
    PowersRise(RANGE_ROW, m);
    NothingAhead(RowPower(m) + 1);
    NothingAhead(0);
    TailAhead(t, rest);
    OpAhead(op, [b]);
    ReadAtom(0, a, TailTokens(t) + rest);
    TailTurn(t, Atom(a), 0, rest);
    GoOn(Atom(a), 0, TailTokens(t) + rest, x, rest);
    ReadLast(RowPower(m) + 1, b, []);
    assert [b] + [] == [b];
    Extends(op, x, Atom(b), [b], []);
    StopsExactly(Binary(op, x, Atom(b)), 0, []);
    Regrouped(a, TailTokens(t), s, b);
  }
}
