/** The precedence-climbing expression parser and the printer it inverts. */
module Parser {
  import opened Values

  datatype Token =
    | Or | And | Not | Eq | NotEq | Less | LessEq | Greater | GreaterEq
    | Plus | Minus | Star | Slash | Percent | Caret | Concat | Arrow | LongArrow | Contains
    | DoubleColon | Is | In | Between | Like | Null | KwTrue | KwFalse | Distinct | From
    | LParen | RParen | Comma | Dot
    | Str(text: bytes) | Num(text: bytes) | Param(ord: nat) | Word(text: bytes) | Clock(which: nat) | Other(kind: nat)

  datatype BinaryOp =
    | OpOr | OpAnd | OpEq | OpNe | OpLt | OpLe | OpGt | OpGe | OpAdd | OpSub | OpMul | OpDiv | OpMod
    | OpExp | OpConcat | OpField | OpFieldText | OpContains
    | OpLike | OpNotLike | OpDistinct | OpNotDistinct

  datatype UnaryOp = OpNot | OpNeg | OpPos

  /** The tree the parser builds; it keeps the parentheses it saw. */
  datatype Expr =
    | Atom(tok: Token)
    | Paren(x: Expr)
    | Unary(uop: UnaryOp, x: Expr)
    | Binary(op: BinaryOp, x: Expr, y: Expr)
    | Cast(x: Expr, typ: bytes)
    | IsNull(x: Expr, negate: bool)
    | Range(x: Expr, negate: bool, lo: Expr, hi: Expr)
    | InList(x: Expr, negate: bool, items: Items)

  datatype Items = Last(e: Expr) | More(e: Expr, rest: Items)

  // ---- binding powers ----

  const BP_NONE := 0
  const BP_OR := 1
  const BP_AND := 2
  const BP_NOT := 3
  const BP_IS := 4
  const BP_COMPARE := 5
  const BP_RANGE := 6
  const BP_ADD := 7
  const BP_JSON := 8
  const BP_MUL := 9
  const BP_EXP := 10
  const BP_UNARY := 11
  const BP_CAST := 12

  /** The table of plain infix operators. */
  function InfixOp(t: Token): Option<(BinaryOp, nat)> {
    match t
    case Or => Some((OpOr, BP_OR))
    case And => Some((OpAnd, BP_AND))
    case Eq => Some((OpEq, BP_COMPARE))
    case NotEq => Some((OpNe, BP_COMPARE))
    case Less => Some((OpLt, BP_COMPARE))
    case LessEq => Some((OpLe, BP_COMPARE))
    case Greater => Some((OpGt, BP_COMPARE))
    case GreaterEq => Some((OpGe, BP_COMPARE))
    case Plus => Some((OpAdd, BP_ADD))
    case Minus => Some((OpSub, BP_ADD))
    case Star => Some((OpMul, BP_MUL))
    case Slash => Some((OpDiv, BP_MUL))
    case Percent => Some((OpMod, BP_MUL))
    case Caret => Some((OpExp, BP_EXP))
    case Concat => Some((OpConcat, BP_ADD))
    case Arrow => Some((OpField, BP_JSON))
    case LongArrow => Some((OpFieldText, BP_JSON))
    case Contains => Some((OpContains, BP_JSON))
    case _ => None
  }

  predicate AtRange(ts: seq<Token>) { ts != [] && (ts[0] == In || ts[0] == Between || ts[0] == Like) }

  /** How tightly the tokens ahead extend an expression on their left; nought when they do not. */
  function Power(ts: seq<Token>): nat {
    if ts == [] then 0
    else if ts[0] == DoubleColon then BP_CAST
    else if ts[0] == Is then BP_IS
    else if AtRange(ts) then BP_RANGE
    else if ts[0] == Not then (if AtRange(ts[1..]) then BP_RANGE else 0)
    else match InfixOp(ts[0]) case Some((_, bp)) => bp case None => 0
  }

  // ---- the parser, on the tokens still ahead ----

  type Parsed = Option<(Expr, seq<Token>)>

  /** What one turn of the infix loop does. */
  datatype Turn = Stop | Fail | Go(lhs: Expr, rest: seq<Token>)

  predicate IsAtom(t: Token) {
    t.Str? || t.Num? || t == KwTrue || t == KwFalse || t == Null || t.Param? || t == Star || t.Clock? || t.Word?
  }

  /** After a name, a parenthesis or a dot would begin a call, a modifier or a qualified name. */
  predicate Clear(ts: seq<Token>) { ts != [] ==> ts[0] != LParen && ts[0] != Dot }

  const DOUBLE: bytes := [100, 111, 117, 98, 108, 101]
  const CHARACTER: bytes := [99, 104, 97, 114, 97, 99, 116, 101, 114]
  const BIT: bytes := [98, 105, 116]
  const TIME: bytes := [116, 105, 109, 101]
  const TIMESTAMP: bytes := [116, 105, 109, 101, 115, 116, 97, 109, 112]

  /** The type names that are one word whatever follows. */
  predicate PlainType(name: bytes) {
    name != DOUBLE && name != CHARACTER && name != BIT && name != TIME && name != TIMESTAMP
  }

  function ParseExpr(min: nat, ts: seq<Token>): (r: Parsed)
    ensures r.Some? ==> |r.value.1| < |ts|
    decreases |ts|, 3
  {
    match ParsePrefix(ts)
    case None => None
    case Some((lhs, rest)) => ParseInfix(lhs, min, rest)
  }

  function ParseInfix(lhs: Expr, min: nat, ts: seq<Token>): (r: Parsed)
    ensures r.Some? ==> |r.value.1| <= |ts|
    decreases |ts|, 2
  {
    match InfixTurn(lhs, min, ts)
    case Stop => Some((lhs, ts))
    case Fail => None
    case Go(lhs', rest) => ParseInfix(lhs', min, rest)
  }

  function InfixTurn(lhs: Expr, min: nat, ts: seq<Token>): (r: Turn)
    ensures r.Go? ==> |r.rest| < |ts|
    decreases |ts|, 1
  {
    if ts == [] then Stop
    else if ts[0] == DoubleColon then
      if BP_CAST < min then Stop
      else ParseCast(lhs, ts[1..])
    else if ts[0] == Is then (if BP_IS < min then Stop else ParseIs(lhs, ts[1..]))
    else if AtRange(ts) then (if BP_RANGE < min then Stop else ParseRange(lhs, false, ts))
    else if ts[0] == Not then
      if !AtRange(ts[1..]) then Stop
      else if BP_RANGE < min then Stop
      else ParseRange(lhs, true, ts[1..])
    else
      match InfixOp(ts[0])
      case None => Stop
      case Some((op, bp)) =>
        if bp < min then Stop
        else match ParseExpr(bp + 1, ts[1..]) case None => Fail case Some((rhs, rest)) => Go(Binary(op, lhs, rhs), rest)
  }

  /** A type name follows the double colon. */
  function ParseCast(lhs: Expr, ts: seq<Token>): (r: Turn)
    ensures r != Stop
    ensures r.Go? ==> |r.rest| < |ts|
  {
    if ts == [] || !ts[0].Word? || !PlainType(ts[0].text) || !Clear(ts[1..]) then Fail
    else Go(Cast(lhs, ts[0].text), ts[1..])
  }

  /** What follows IS. TRUE and FALSE are shorthands for a comparison. */
  function ParseIs(lhs: Expr, ts: seq<Token>): (r: Turn)
    ensures r != Stop
    ensures r.Go? ==> |r.rest| < |ts|
    decreases |ts|, 4
  {
    var negate := ts != [] && ts[0] == Not;
    var after := if negate then ts[1..] else ts;
    if after == [] then Fail
    else if after[0] == Null then Go(IsNull(lhs, negate), after[1..])
    else if after[0] == KwTrue || after[0] == KwFalse then
      Go(Binary(if negate then OpDistinct else OpNotDistinct, lhs, Atom(after[0])), after[1..])
    else if after[0] == Distinct then ParseDistinct(lhs, negate, after)
    else Fail
  }

  function ParseDistinct(lhs: Expr, negate: bool, ts: seq<Token>): (r: Turn)
    requires ts != [] && ts[0] == Distinct
    ensures r != Stop
    ensures r.Go? ==> |r.rest| < |ts|
    decreases |ts|, 3
  {
    if |ts| < 2 || ts[1] != From then Fail
    else
      match ParseExpr(BP_IS + 1, ts[2..])
      case None => Fail
      case Some((rhs, rest)) => Go(Binary(if negate then OpNotDistinct else OpDistinct, lhs, rhs), rest)
  }

  function ParseRange(lhs: Expr, negate: bool, ts: seq<Token>): (r: Turn)
    requires AtRange(ts)
    ensures r != Stop
    ensures r.Go? ==> |r.rest| < |ts|
    decreases |ts|, 0
  {
    if ts[0] == Like then
      match ParseExpr(BP_RANGE + 1, ts[1..])
      case None => Fail
      case Some((rhs, rest)) => Go(Binary(if negate then OpNotLike else OpLike, lhs, rhs), rest)
    else if ts[0] == Between then
      match ParseExpr(BP_RANGE + 1, ts[1..])
      case None => Fail
      case Some((lo, mid)) =>
        if mid == [] || mid[0] != And then Fail
        else
          match ParseExpr(BP_RANGE + 1, mid[1..])
          case None => Fail
          case Some((hi, rest)) => Go(Range(lhs, negate, lo, hi), rest)
    else if |ts| < 2 || ts[1] != LParen then Fail
    else
      match ParseItems(ts[2..])
      case None => Fail
      case Some((items, rest)) =>
        if rest == [] || rest[0] != RParen then Fail else Go(InList(lhs, negate, items), rest[1..])
  }

  /** One or more expressions separated by commas. */
  function ParseItems(ts: seq<Token>): (r: Option<(Items, seq<Token>)>)
    ensures r.Some? ==> |r.value.1| < |ts|
    decreases |ts|, 4
  {
    match ParseExpr(BP_NONE, ts)
    case None => None
    case Some((e, rest)) =>
      if rest == [] || rest[0] != Comma then Some((Last(e), rest))
      else
        match ParseItems(rest[1..])
        case None => None
        case Some((items, end)) => Some((More(e, items), end))
  }

  function ParsePrefix(ts: seq<Token>): (r: Parsed)
    ensures r.Some? ==> |r.value.1| < |ts|
    decreases |ts|, 2
  {
    if ts == [] then None
    else if ts[0] == Not then
      match ParseExpr(BP_NOT, ts[1..]) case None => None case Some((x, rest)) => Some((Unary(OpNot, x), rest))
    else if ts[0] == Minus || ts[0] == Plus then
      match ParseExpr(BP_UNARY, ts[1..])
      case None => None
      case Some((x, rest)) => Some((Unary(if ts[0] == Plus then OpPos else OpNeg, x), rest))
    else if ts[0] == LParen then
      match ParseExpr(BP_NONE, ts[1..])
      case None => None
      case Some((x, rest)) => if rest == [] || rest[0] != RParen then None else Some((Paren(x), rest[1..]))
    else if IsAtom(ts[0]) && (ts[0].Word? ==> Clear(ts[1..])) then Some((Atom(ts[0]), ts[1..]))
    else None
  }

  // ---- the printer ----

  function OpTokens(op: BinaryOp): (ts: seq<Token>)
    ensures ts != []
  {
    match op
    case OpOr => [Or]
    case OpAnd => [And]
    case OpEq => [Eq]
    case OpNe => [NotEq]
    case OpLt => [Less]
    case OpLe => [LessEq]
    case OpGt => [Greater]
    case OpGe => [GreaterEq]
    case OpAdd => [Plus]
    case OpSub => [Minus]
    case OpMul => [Star]
    case OpDiv => [Slash]
    case OpMod => [Percent]
    case OpExp => [Caret]
    case OpConcat => [Concat]
    case OpField => [Arrow]
    case OpFieldText => [LongArrow]
    case OpContains => [Contains]
    case OpLike => [Like]
    case OpNotLike => [Not, Like]
    case OpDistinct => [Is, Distinct, From]
    case OpNotDistinct => [Is, Not, Distinct, From]
  }

  /** A tree's tokens, with a parenthesis for each Paren node and no other. */
  function Raw(e: Expr): seq<Token> {
    match e
    case Atom(t) => [t]
    case Paren(x) => [LParen] + Raw(x) + [RParen]
    case Unary(op, x) => [match op case OpNot => Not case OpNeg => Minus case OpPos => Plus] + Raw(x)
    case Binary(op, x, y) => Raw(x) + (OpTokens(op) + Raw(y))
    case Cast(x, typ) => Raw(x) + [DoubleColon, Word(typ)]
    case IsNull(x, negate) => Raw(x) + ([Is] + (if negate then [Not] else []) + [Null])
    case Range(x, negate, lo, hi) => Raw(x) + ((if negate then [Not] else []) + [Between] + Raw(lo) + [And] + Raw(hi))
    case InList(x, negate, items) => Raw(x) + ((if negate then [Not] else []) + [In, LParen] + RawItems(items) + [RParen])
  }

  function RawItems(items: Items): seq<Token> {
    match items
    case Last(e) => Raw(e)
    case More(e, rest) => Raw(e) + [Comma] + RawItems(rest)
  }

  function OpPower(op: BinaryOp): nat {
    match op
    case OpOr => BP_OR
    case OpAnd => BP_AND
    case OpEq => BP_COMPARE
    case OpNe => BP_COMPARE
    case OpLt => BP_COMPARE
    case OpLe => BP_COMPARE
    case OpGt => BP_COMPARE
    case OpGe => BP_COMPARE
    case OpAdd => BP_ADD
    case OpSub => BP_ADD
    case OpMul => BP_MUL
    case OpDiv => BP_MUL
    case OpMod => BP_MUL
    case OpExp => BP_EXP
    case OpConcat => BP_ADD
    case OpField => BP_JSON
    case OpFieldText => BP_JSON
    case OpContains => BP_JSON
    case OpLike => BP_RANGE
    case OpNotLike => BP_RANGE
    case OpDistinct => BP_IS
    case OpNotDistinct => BP_IS
  }

  function UnaryPower(op: UnaryOp): nat { if op == OpNot then BP_NOT else BP_UNARY }

  /** Whether a node may stand without parentheses where operators below `min` end the expression and
      the next token extends what is on its left with power `follow`. */
  predicate RootFits(e: Expr, min: nat, follow: nat) {
    match e
    case Atom(_) => true
    case Paren(_) => true
    case Unary(op, _) => follow < UnaryPower(op)
    case Binary(op, _, _) => min <= OpPower(op) && follow <= OpPower(op)
    case Cast(_, _) => min <= BP_CAST
    case IsNull(_, _) => min <= BP_IS
    case Range(_, _, _, _) => min <= BP_RANGE && follow <= BP_RANGE
    case InList(_, _, _) => min <= BP_RANGE
  }

  /** Every node of a tree fits where it stands. */
  predicate Fits(e: Expr, min: nat, follow: nat) {
    RootFits(e, min, follow) &&
    match e
    case Atom(t) => IsAtom(t)
    case Paren(x) => Fits(x, BP_NONE, 0)
    case Unary(op, x) => Fits(x, UnaryPower(op), follow)
    case Binary(op, x, y) => Fits(x, min, OpPower(op)) && Fits(y, OpPower(op) + 1, follow)
    case Cast(x, typ) => Fits(x, min, BP_CAST) && PlainType(typ)
    case IsNull(x, _) => Fits(x, min, BP_IS)
    case Range(x, _, lo, hi) => Fits(x, min, BP_RANGE) && Fits(lo, BP_RANGE + 1, BP_AND) && Fits(hi, BP_RANGE + 1, follow)
    case InList(x, _, items) => Fits(x, min, BP_RANGE) && ItemsFit(items)
  }

  predicate ItemsFit(items: Items) {
    match items
    case Last(e) => Fits(e, BP_NONE, 0)
    case More(e, rest) => Fits(e, BP_NONE, 0) && ItemsFit(rest)
  }

  // ---- printing, then parsing ----

  /** Whether the infix loop at `min` stops before these tokens. */
  predicate Halts(min: nat, ts: seq<Token>) { Power(ts) == 0 || Power(ts) < min }

  lemma StopsExactly(lhs: Expr, min: nat, ts: seq<Token>)
    ensures InfixTurn(lhs, min, ts) == Stop <==> Halts(min, ts)
    ensures Halts(min, ts) ==> ParseInfix(lhs, min, ts) == Some((lhs, ts))
  {
    hide ParseExpr, ParseItems, ParsePrefix;
  }

  lemma OpAhead(op: BinaryOp, ts: seq<Token>)
    ensures Power(OpTokens(op) + ts) == OpPower(op) && Clear(OpTokens(op) + ts)
  {
    var all := OpTokens(op) + ts;
    assert all[0] == OpTokens(op)[0];
    if op == OpNotLike { assert all[1..][0] == Like; }
  }

  /** One binary operator and its right operand extend what is on the left. */
  lemma BinaryTurn(op: BinaryOp, lhs: Expr, min: nat, y: Expr, ts: seq<Token>, rest: seq<Token>)
    requires min <= OpPower(op) && ParseExpr(OpPower(op) + 1, ts) == Some((y, rest))
    ensures InfixTurn(lhs, min, OpTokens(op) + ts) == Go(Binary(op, lhs, y), rest)
  {
    hide ParseExpr, InfixTurn, ParseItems;
    if OpPower(op) == BP_IS {
      DistinctTurn(op, lhs, min, y, ts, rest);
    } else if op == OpLike || op == OpNotLike {
      LikeTurn(op, lhs, min, y, ts, rest);
    } else {
      PlainTurn(op, lhs, min, y, ts, rest);
    }
  }

  lemma PlainTurn(op: BinaryOp, lhs: Expr, min: nat, y: Expr, ts: seq<Token>, rest: seq<Token>)
    requires OpPower(op) != BP_IS && op != OpLike && op != OpNotLike
    requires min <= OpPower(op) && ParseExpr(OpPower(op) + 1, ts) == Some((y, rest))
    ensures InfixTurn(lhs, min, OpTokens(op) + ts) == Go(Binary(op, lhs, y), rest)
  {
    hide ParseExpr, InfixTurn, InfixOp, OpPower;
    OpTable(op);
    assert (OpTokens(op) + ts)[1..] == ts;
    TableTurn(op, lhs, min, y, OpTokens(op) + ts, rest);
  }

  lemma OpTable(op: BinaryOp)
    requires OpPower(op) != BP_IS && op != OpLike && op != OpNotLike
    ensures |OpTokens(op)| == 1 && InfixOp(OpTokens(op)[0]) == Some((op, OpPower(op)))
  {}

  lemma TableTurn(op: BinaryOp, lhs: Expr, min: nat, y: Expr, ts: seq<Token>, rest: seq<Token>)
    requires ts != [] && InfixOp(ts[0]).Some? && InfixOp(ts[0]).value.0 == op && min <= InfixOp(ts[0]).value.1
    requires ParseExpr(InfixOp(ts[0]).value.1 + 1, ts[1..]) == Some((y, rest))
    ensures InfixTurn(lhs, min, ts) == Go(Binary(op, lhs, y), rest)
  {
    hide ParseExpr, ParseItems, ParseRange, ParseIs;
  }

  lemma LikeTurn(op: BinaryOp, lhs: Expr, min: nat, y: Expr, ts: seq<Token>, rest: seq<Token>)
    requires op == OpLike || op == OpNotLike
    requires min <= BP_RANGE && ParseExpr(BP_RANGE + 1, ts) == Some((y, rest))
    ensures InfixTurn(lhs, min, OpTokens(op) + ts) == Go(Binary(op, lhs, y), rest)
  {
    hide ParseExpr, ParseItems, ParseIs;
    var all := OpTokens(op) + ts;
    if op == OpNotLike { assert all[1..] == [Like] + ts; } else { assert all == [Like] + ts; }
    assert ([Like] + ts)[1..] == ts;
  }

  lemma DistinctTurn(op: BinaryOp, lhs: Expr, min: nat, y: Expr, ts: seq<Token>, rest: seq<Token>)
    requires op == OpDistinct || op == OpNotDistinct
    requires min <= BP_IS && ParseExpr(BP_IS + 1, ts) == Some((y, rest))
    ensures InfixTurn(lhs, min, OpTokens(op) + ts) == Go(Binary(op, lhs, y), rest)
  {
    hide ParseExpr, ParseItems, ParseRange;
    var all, tail := OpTokens(op) + ts, [Distinct, From] + ts;
    if op == OpNotDistinct { assert all[1..] == [Not] + tail && ([Not] + tail)[1..] == tail; } else { assert all[1..] == tail; }
    assert tail[2..] == ts;
    assert ParseDistinct(lhs, op == OpNotDistinct, tail) == Go(Binary(op, lhs, y), rest);
  }

  lemma {:induction false} RawParses(e: Expr, min: nat, rest: seq<Token>)
    requires Fits(e, min, Power(rest)) && Clear(rest)
    ensures ParseExpr(min, Raw(e) + rest) == ParseInfix(e, min, rest)
    decreases e, 1
  {
    hide ParseExpr, ParseInfix, Power, Clear, PlainType, Raw;
    match e
    case Atom(t) => AtomParses(t, min, rest);
    case Paren(x) => ParenParses(x, min, rest);
    case Unary(op, x) => UnaryParses(op, x, min, rest);
    case Binary(op, x, y) => BinaryParses(op, x, y, min, rest);
    case Cast(x, typ) => CastParses(x, typ, min, rest);
    case IsNull(x, negate) => IsNullParses(x, negate, min, rest);
    case Range(x, negate, lo, hi) => BetweenParses(x, negate, lo, hi, min, rest);
    case InList(x, negate, items) => InParses(x, negate, items, min, rest);
  }

  lemma {:induction false} ParenParses(x: Expr, min: nat, rest: seq<Token>)
    requires Fits(x, BP_NONE, 0)
    ensures ParseExpr(min, Raw(Paren(x)) + rest) == ParseInfix(Paren(x), min, rest)
    decreases Paren(x), 0
  {
    hide ParseInfix, Power, Fits, Raw, InfixTurn;
    var after := [RParen] + rest;
    Punctuation(RParen, rest);
    RawReads(x, BP_NONE, after);
    ParenTokens(x, rest);
    assert after[1..] == rest;
    var ts := [LParen] + (Raw(x) + after);
    assert ts[1..] == Raw(x) + after;
  }

  lemma ParenTokens(x: Expr, rest: seq<Token>)
    ensures Raw(Paren(x)) + rest == [LParen] + (Raw(x) + ([RParen] + rest))
  {}

  function UnaryToken(op: UnaryOp): Token {
    match op
    case OpNot => Not
    case OpNeg => Minus
    case OpPos => Plus
  }

  lemma {:induction false} UnaryParses(op: UnaryOp, x: Expr, min: nat, rest: seq<Token>)
    requires Fits(x, UnaryPower(op), Power(rest)) && Power(rest) < UnaryPower(op) && Clear(rest)
    ensures ParseExpr(min, Raw(Unary(op, x)) + rest) == ParseInfix(Unary(op, x), min, rest)
    decreases Unary(op, x), 0
  {
    hide ParseInfix, Power, Fits, Raw, InfixTurn, Clear;
    RawReads(x, UnaryPower(op), rest);
    UnaryTokens(op, x, rest);
    var ts := [UnaryToken(op)] + (Raw(x) + rest);
    assert ts[1..] == Raw(x) + rest;
  }

  lemma UnaryTokens(op: UnaryOp, x: Expr, rest: seq<Token>)
    ensures Raw(Unary(op, x)) + rest == [UnaryToken(op)] + (Raw(x) + rest)
  {}

  lemma {:induction false} BinaryParses(op: BinaryOp, x: Expr, y: Expr, min: nat, rest: seq<Token>)
    requires Fits(x, min, OpPower(op)) && Fits(y, OpPower(op) + 1, Power(rest)) && Clear(rest)
    requires min <= OpPower(op) && Power(rest) <= OpPower(op)
    ensures ParseExpr(min, Raw(Binary(op, x, y)) + rest) == ParseInfix(Binary(op, x, y), min, rest)
    decreases Binary(op, x, y), 0
  {
    hide ParseExpr, ParseInfix, Power, Fits, InfixTurn, Clear, OpTokens, OpPower;
    var after := OpTokens(op) + (Raw(y) + rest);
    OpAhead(op, Raw(y) + rest);
    RawReads(y, OpPower(op) + 1, rest);
    BinaryTurn(op, x, min, y, Raw(y) + rest, rest);
    RawParses(x, min, after);
    GoOn(x, min, after, Binary(op, x, y), rest);
    assert Raw(Binary(op, x, y)) + rest == Raw(x) + after;
  }

  lemma {:induction false} CastParses(x: Expr, typ: bytes, min: nat, rest: seq<Token>)
    requires Fits(x, min, BP_CAST) && PlainType(typ) && min <= BP_CAST && Clear(rest)
    ensures ParseExpr(min, Raw(Cast(x, typ)) + rest) == ParseInfix(Cast(x, typ), min, rest)
    decreases Cast(x, typ), 0
  {
    hide ParseExpr, ParseInfix, Power, Fits, InfixTurn, Clear, PlainType;
    var after := [DoubleColon, Word(typ)] + rest;
    CastTurn(x, min, typ, rest);
    RawParses(x, min, after);
    GoOn(x, min, after, Cast(x, typ), rest);
    assert Raw(Cast(x, typ)) + rest == Raw(x) + after;
  }

  lemma {:induction false} IsNullParses(x: Expr, negate: bool, min: nat, rest: seq<Token>)
    requires Fits(x, min, BP_IS) && min <= BP_IS
    ensures ParseExpr(min, Raw(IsNull(x, negate)) + rest) == ParseInfix(IsNull(x, negate), min, rest)
    decreases IsNull(x, negate), 0
  {
    hide ParseExpr, ParseInfix, Power, Fits, InfixTurn, Clear;
    var after := ([Is] + (if negate then [Not] else []) + [Null]) + rest;
    IsNullTurn(x, min, negate, rest);
    RawParses(x, min, after);
    GoOn(x, min, after, IsNull(x, negate), rest);
    assert Raw(IsNull(x, negate)) + rest == Raw(x) + after;
  }

  lemma {:induction false} BetweenParses(x: Expr, negate: bool, lo: Expr, hi: Expr, min: nat, rest: seq<Token>)
    requires Fits(x, min, BP_RANGE) && Fits(lo, BP_RANGE + 1, BP_AND) && Fits(hi, BP_RANGE + 1, Power(rest))
    requires min <= BP_RANGE && Power(rest) <= BP_RANGE && Clear(rest)
    ensures ParseExpr(min, Raw(Range(x, negate, lo, hi)) + rest) == ParseInfix(Range(x, negate, lo, hi), min, rest)
    decreases Range(x, negate, lo, hi), 0
  {
    hide ParseExpr, ParseInfix, Power, Fits, InfixTurn, Clear;
    var mid := [And] + (Raw(hi) + rest);
    var after := (if negate then [Not] else []) + ([Between] + (Raw(lo) + mid));
    AndAhead(Raw(hi) + rest);
    RawReads(lo, BP_RANGE + 1, mid);
    RawReads(hi, BP_RANGE + 1, rest);
    assert mid[1..] == Raw(hi) + rest;
    BetweenTurn(x, min, negate, lo, hi, Raw(lo) + mid, mid, rest);
    RawParses(x, min, after);
    GoOn(x, min, after, Range(x, negate, lo, hi), rest);
    BetweenTokens(x, negate, lo, hi, rest);
  }

  lemma BetweenTokens(x: Expr, negate: bool, lo: Expr, hi: Expr, rest: seq<Token>)
    ensures Raw(Range(x, negate, lo, hi)) + rest
            == Raw(x) + ((if negate then [Not] else []) + ([Between] + (Raw(lo) + ([And] + (Raw(hi) + rest)))))
  {
    var not := if negate then [Not] else [];
    assert not + [Between] + Raw(lo) + [And] + Raw(hi) + rest == not + ([Between] + (Raw(lo) + ([And] + (Raw(hi) + rest))));
  }

  lemma {:induction false} InParses(x: Expr, negate: bool, items: Items, min: nat, rest: seq<Token>)
    requires Fits(x, min, BP_RANGE) && ItemsFit(items) && min <= BP_RANGE
    ensures ParseExpr(min, Raw(InList(x, negate, items)) + rest) == ParseInfix(InList(x, negate, items), min, rest)
    decreases InList(x, negate, items), 0
  {
    hide ParseExpr, ParseInfix, ParseItems, Power, Fits, ItemsFit, InfixTurn, Clear;
    var end := [RParen] + rest;
    var after := (if negate then [Not] else []) + ([In, LParen] + (RawItems(items) + end));
    Punctuation(RParen, rest);
    RawItemsParse(items, end);
    assert end[1..] == rest;
    InTurn(x, min, negate, items, RawItems(items) + end, end, rest);
    RawParses(x, min, after);
    GoOn(x, min, after, InList(x, negate, items), rest);
    InTokens(x, negate, items, rest);
  }

  lemma InTokens(x: Expr, negate: bool, items: Items, rest: seq<Token>)
    ensures Raw(InList(x, negate, items)) + rest
            == Raw(x) + ((if negate then [Not] else []) + ([In, LParen] + (RawItems(items) + ([RParen] + rest))))
  {
    var not := if negate then [Not] else [];
    assert not + [In, LParen] + RawItems(items) + [RParen] + rest == not + ([In, LParen] + (RawItems(items) + ([RParen] + rest)));
  }

  /** As an operand: the next token does not extend it. */
  lemma {:induction false} RawReads(e: Expr, min: nat, rest: seq<Token>)
    requires Fits(e, min, Power(rest)) && Clear(rest) && Halts(min, rest)
    ensures ParseExpr(min, Raw(e) + rest) == Some((e, rest))
    decreases e, 2
  {
    hide ParseExpr, ParseInfix, Power, Fits, Clear;
    RawParses(e, min, rest);
    StopsExactly(e, min, rest);
  }

  lemma {:induction false} RawItemsParse(items: Items, rest: seq<Token>)
    requires ItemsFit(items) && rest != [] && rest[0] == RParen && Power(rest) == 0 && Clear(rest)
    ensures ParseItems(RawItems(items) + rest) == Some((items, rest))
    decreases items, 0
  {
    hide ParseExpr, ParseItems, Power, Clear, Fits, Raw;
    match items
    case Last(e) =>
      RawReads(e, BP_NONE, rest);
      LastItem(Raw(e) + rest, e, rest);
    case More(e, more) =>
      var after := [Comma] + (RawItems(more) + rest);
      Punctuation(Comma, RawItems(more) + rest);
      RawReads(e, BP_NONE, after);
      RawItemsParse(more, rest);
      assert after[1..] == RawItems(more) + rest;
      MoreItems(Raw(e) + after, e, after, more, rest);
      assert RawItems(items) + rest == Raw(e) + after;
  }

  lemma LastItem(ts: seq<Token>, e: Expr, rest: seq<Token>)
    requires ParseExpr(BP_NONE, ts) == Some((e, rest)) && rest != [] && rest[0] == RParen
    ensures ParseItems(ts) == Some((Last(e), rest))
  {
    hide ParseExpr;
  }

  lemma MoreItems(ts: seq<Token>, e: Expr, after: seq<Token>, more: Items, rest: seq<Token>)
    requires ParseExpr(BP_NONE, ts) == Some((e, after)) && after != [] && after[0] == Comma && ParseItems(after[1..]) == Some((more, rest))
    ensures ParseItems(ts) == Some((More(e, more), rest))
  {
    hide ParseExpr;
  }

  lemma GoOn(lhs: Expr, min: nat, ts: seq<Token>, lhs': Expr, rest: seq<Token>)
    requires InfixTurn(lhs, min, ts) == Go(lhs', rest)
    ensures ParseInfix(lhs, min, ts) == ParseInfix(lhs', min, rest)
  {
    hide InfixTurn;
  }

  lemma Punctuation(t: Token, ts: seq<Token>)
    requires t == RParen || t == Comma
    ensures Power([t] + ts) == 0 && Clear([t] + ts)
  {}

  lemma AndAhead(ts: seq<Token>)
    ensures Power([And] + ts) == BP_AND && Clear([And] + ts)
  {}

  lemma AtomParses(t: Token, min: nat, rest: seq<Token>)
    requires IsAtom(t) && Clear(rest)
    ensures ParseExpr(min, Raw(Atom(t)) + rest) == ParseInfix(Atom(t), min, rest)
  {
    hide ParseInfix, InfixTurn;
    assert ([t] + rest)[1..] == rest;
    assert ParsePrefix([t] + rest) == Some((Atom(t), rest));
  }

  lemma CastTurn(x: Expr, min: nat, typ: bytes, rest: seq<Token>)
    requires min <= BP_CAST && PlainType(typ) && Clear(rest)
    ensures var after := [DoubleColon, Word(typ)] + rest;
            Power(after) == BP_CAST && Clear(after) && InfixTurn(x, min, after) == Go(Cast(x, typ), rest)
  {
    hide ParseExpr;
    assert ([DoubleColon, Word(typ)] + rest)[1..] == [Word(typ)] + rest;
    assert ([Word(typ)] + rest)[1..] == rest;
  }

  lemma IsNullTurn(x: Expr, min: nat, negate: bool, rest: seq<Token>)
    requires min <= BP_IS
    ensures var after := ([Is] + (if negate then [Not] else []) + [Null]) + rest;
            Power(after) == BP_IS && Clear(after) && InfixTurn(x, min, after) == Go(IsNull(x, negate), rest)
  {
    hide ParseExpr;
    var after := ([Is] + (if negate then [Not] else []) + [Null]) + rest;
    assert after[1..] == (if negate then [Not] else []) + ([Null] + rest);
    if negate { assert after[1..][1..] == [Null] + rest; }
    assert ([Null] + rest)[1..] == rest;
  }

  lemma BetweenTurn(x: Expr, min: nat, negate: bool, lo: Expr, hi: Expr, ts: seq<Token>, mid: seq<Token>, rest: seq<Token>)
    requires min <= BP_RANGE && ParseExpr(BP_RANGE + 1, ts) == Some((lo, mid)) && mid != [] && mid[0] == And
    requires ParseExpr(BP_RANGE + 1, mid[1..]) == Some((hi, rest))
    ensures var after := (if negate then [Not] else []) + ([Between] + ts);
            Power(after) == BP_RANGE && Clear(after) && InfixTurn(x, min, after) == Go(Range(x, negate, lo, hi), rest)
  {
    hide ParseExpr, ParseItems;
    var after := (if negate then [Not] else []) + ([Between] + ts);
    if negate { assert after[1..] == [Between] + ts; } else { assert after == [Between] + ts; }
    assert ([Between] + ts)[1..] == ts;
  }

  lemma InTurn(x: Expr, min: nat, negate: bool, items: Items, ts: seq<Token>, end: seq<Token>, rest: seq<Token>)
    requires min <= BP_RANGE && ParseItems(ts) == Some((items, end)) && end != [] && end[0] == RParen && end[1..] == rest
    ensures var after := (if negate then [Not] else []) + ([In, LParen] + ts);
            Power(after) == BP_RANGE && Clear(after) && InfixTurn(x, min, after) == Go(InList(x, negate, items), rest)
  {
    hide ParseExpr, ParseItems;
    var after := (if negate then [Not] else []) + ([In, LParen] + ts);
    if negate { assert after[1..] == [In, LParen] + ts; } else { assert after == [In, LParen] + ts; }
    assert ([In, LParen] + ts)[2..] == ts;
  }

  // ---- what is parsed fits ----

  /** No shorthand IS TRUE or IS FALSE, whose tree prints as a comparison, before the last `end` tokens. */
  predicate NoShorthand(ts: seq<Token>, end: nat) {
    forall i :: 0 <= i < |ts| - end ==> !ShorthandAt(ts, i)
  }

  predicate ShorthandAt(ts: seq<Token>, i: nat)
    requires i < |ts|
  {
    ts[i] == Is &&
    var j := if i + 1 < |ts| && ts[i + 1] == Not then i + 2 else i + 1;
    j < |ts| && (ts[j] == KwTrue || ts[j] == KwFalse)
  }

  /** The tokens left are an end of the tokens given. */
  ghost predicate EndOf(rest: seq<Token>, ts: seq<Token>) { |rest| <= |ts| && rest == ts[|ts| - |rest|..] }

  lemma ShorthandLess(ts: seq<Token>, rest: seq<Token>, end: nat)
    requires NoShorthand(ts, end) && EndOf(rest, ts)
    ensures NoShorthand(rest, end)
  {
    var k := |ts| - |rest|;
    forall i | 0 <= i < |rest| - end ensures !ShorthandAt(rest, i) {
      assert !ShorthandAt(ts, k + i);
    }
  }

  lemma EndSkips(rest: seq<Token>, ts: seq<Token>, k: nat)
    requires k <= |ts| && EndOf(rest, ts[k..])
    ensures EndOf(rest, ts)
  {}

  lemma EndChain(a: seq<Token>, b: seq<Token>, c: seq<Token>)
    requires EndOf(a, b) && EndOf(b, c)
    ensures EndOf(a, c)
  {}

  /** Every tree parsed fits, unless a shorthand is among the tokens it was parsed from. */
  lemma {:induction false} ExprFits(min: nat, ts: seq<Token>, end: nat)
    requires NoShorthand(ts, end) && ParseExpr(min, ts).Some? && end <= |ParseExpr(min, ts).value.1|
    ensures var (e, rest) := ParseExpr(min, ts).value;
            EndOf(rest, ts) && Fits(e, min, Power(rest)) && Halts(min, rest)
    decreases |ts|, 6
  {
    hide ParsePrefix, ParseInfix, Fits, Power, NoShorthand;
    var (lhs, rest) := ParsePrefix(ts).value;
    PrefixFits(min, ts, end);
    ShorthandLess(ts, rest, end);
    InfixFits(lhs, min, rest, end);
    EndChain(ParseInfix(lhs, min, rest).value.1, rest, ts);
  }

  lemma {:induction false} InfixFits(lhs: Expr, min: nat, ts: seq<Token>, end: nat)
    requires NoShorthand(ts, end) && Fits(lhs, min, Power(ts)) && ParseInfix(lhs, min, ts).Some? && end <= |ParseInfix(lhs, min, ts).value.1|
    ensures var (e, rest) := ParseInfix(lhs, min, ts).value;
            EndOf(rest, ts) && Fits(e, min, Power(rest)) && Halts(min, rest)
    decreases |ts|, 5
  {
    hide InfixTurn, Fits, Power, NoShorthand, Halts;
    StopsExactly(lhs, min, ts);
    match InfixTurn(lhs, min, ts)
    case Stop =>
    case Go(lhs', rest) =>
      TurnFits(lhs, min, ts, end);
      ShorthandLess(ts, rest, end);
      InfixFits(lhs', min, rest, end);
      EndChain(ParseInfix(lhs', min, rest).value.1, rest, ts);
  }

  lemma {:induction false} PrefixFits(min: nat, ts: seq<Token>, end: nat)
    requires NoShorthand(ts, end) && ParsePrefix(ts).Some? && end <= |ParsePrefix(ts).value.1|
    ensures var (e, rest) := ParsePrefix(ts).value; EndOf(rest, ts) && Fits(e, min, Power(rest))
    decreases |ts|, 5
  {
    hide ParseExpr, Power, NoShorthand;
    var tail := ts[1..];
    ShorthandLess(ts, tail, end);
    if ts[0] == Not {
      ExprFits(BP_NOT, tail, end);
      EndSkips(ParseExpr(BP_NOT, tail).value.1, ts, 1);
    } else if ts[0] == Minus || ts[0] == Plus {
      ExprFits(BP_UNARY, tail, end);
      EndSkips(ParseExpr(BP_UNARY, tail).value.1, ts, 1);
    } else if ts[0] == LParen {
      ExprFits(BP_NONE, tail, end);
      var rest := ParseExpr(BP_NONE, tail).value.1;
      PowerOfParen(rest);
      EndSkips(rest, ts, 1);
      EndChain(rest[1..], rest, ts);
    }
  }

  lemma PowerOfParen(ts: seq<Token>)
    requires ts != [] && (ts[0] == RParen || ts[0] == Comma)
    ensures Power(ts) == 0
  {}

  lemma {:induction false} TurnFits(lhs: Expr, min: nat, ts: seq<Token>, end: nat)
    requires NoShorthand(ts, end) && Fits(lhs, min, Power(ts)) && InfixTurn(lhs, min, ts).Go? && end <= |InfixTurn(lhs, min, ts).rest|
    ensures var t := InfixTurn(lhs, min, ts); EndOf(t.rest, ts) && Fits(t.lhs, min, Power(t.rest))
    decreases |ts|, 4
  {
    hide ParseExpr, ParseIs, ParseRange, Fits, NoShorthand, Halts;
    if ts[0] == DoubleColon {
      assert ts[1..][1..] == ts[2..];
      CastFits(lhs, min, ts[1].text, Power(ts[2..]));
    } else if ts[0] == Is {
      IsFits(lhs, min, ts, end);
    } else if AtRange(ts) {
      RangeFits(lhs, false, min, ts, end);
    } else if ts[0] == Not {
      ShorthandLess(ts, ts[1..], end);
      RangeFits(lhs, true, min, ts[1..], end);
      EndSkips(ParseRange(lhs, true, ts[1..]).rest, ts, 1);
    } else {
      TableFits(lhs, min, ts, end);
    }
  }

  lemma {:induction false} TableFits(lhs: Expr, min: nat, ts: seq<Token>, end: nat)
    requires NoShorthand(ts, end) && ts != [] && InfixOp(ts[0]).Some? && ParseExpr(InfixOp(ts[0]).value.1 + 1, ts[1..]).Some?
    requires end <= |ParseExpr(InfixOp(ts[0]).value.1 + 1, ts[1..]).value.1|
    requires Fits(lhs, min, InfixOp(ts[0]).value.1) && min <= InfixOp(ts[0]).value.1
    ensures var (op, bp) := InfixOp(ts[0]).value;
            var (y, rest) := ParseExpr(bp + 1, ts[1..]).value;
            EndOf(rest, ts) && Fits(Binary(op, lhs, y), min, Power(rest))
    decreases |ts|, 3
  {
    hide ParseExpr, InfixOp, Power, Fits, NoShorthand, Halts;
    var (op, bp) := InfixOp(ts[0]).value;
    TablePower(ts[0]);
    ShorthandLess(ts, ts[1..], end);
    ExprFits(bp + 1, ts[1..], end);
    var (y, rest) := ParseExpr(bp + 1, ts[1..]).value;
    BinaryFits(op, lhs, y, min, rest);
    EndSkips(rest, ts, 1);
  }

  lemma TablePower(t: Token)
    ensures InfixOp(t).Some? ==> OpPower(InfixOp(t).value.0) == InfixOp(t).value.1
  {}

  lemma CastFits(x: Expr, min: nat, typ: bytes, follow: nat)
    requires Fits(x, min, BP_CAST) && min <= BP_CAST && PlainType(typ)
    ensures Fits(Cast(x, typ), min, follow)
  {}

  lemma BinaryFits(op: BinaryOp, x: Expr, y: Expr, min: nat, rest: seq<Token>)
    requires Fits(x, min, OpPower(op)) && Fits(y, OpPower(op) + 1, Power(rest)) && Halts(OpPower(op) + 1, rest) && min <= OpPower(op)
    ensures Fits(Binary(op, x, y), min, Power(rest))
  {
    hide Power;
  }

  lemma {:induction false} IsFits(lhs: Expr, min: nat, ts: seq<Token>, end: nat)
    requires NoShorthand(ts, end) && ts != [] && ts[0] == Is && Fits(lhs, min, BP_IS) && min <= BP_IS && ParseIs(lhs, ts[1..]).Go? && end <= |ParseIs(lhs, ts[1..]).rest|
    ensures var t := ParseIs(lhs, ts[1..]); EndOf(t.rest, ts) && Fits(t.lhs, min, Power(t.rest))
    decreases |ts|, 3
  {
    hide ParseExpr, Power, NoShorthand, Halts, Fits;
    NotShorthand(ts, end);
    var negate := |ts| > 1 && ts[1] == Not;
    var after := if negate then ts[2..] else ts[1..];
    assert EndOf(after, ts);
    if after[0] == Distinct {
      ShorthandLess(ts, after, end);
      DistinctFits(lhs, negate, min, after, end);
      EndChain(ParseExpr(BP_IS + 1, after[2..]).value.1, after, ts);
    } else {
      IsNullFits(lhs, negate, min, Power(after[1..]));
      EndChain(after[1..], after, ts);
    }
  }

  lemma IsNullFits(x: Expr, negate: bool, min: nat, follow: nat)
    requires Fits(x, min, BP_IS) && min <= BP_IS
    ensures Fits(IsNull(x, negate), min, follow)
  {}

  lemma {:induction false} DistinctFits(lhs: Expr, negate: bool, min: nat, ts: seq<Token>, end: nat)
    requires NoShorthand(ts, end) && |ts| >= 2 && Fits(lhs, min, BP_IS) && min <= BP_IS && ParseExpr(BP_IS + 1, ts[2..]).Some?
    requires end <= |ParseExpr(BP_IS + 1, ts[2..]).value.1|
    ensures var (y, rest) := ParseExpr(BP_IS + 1, ts[2..]).value;
            EndOf(rest, ts) && Fits(Binary(if negate then OpNotDistinct else OpDistinct, lhs, y), min, Power(rest))
    decreases |ts|, 2
  {
    hide ParseExpr, Power, NoShorthand, Halts, Fits;
    ShorthandLess(ts, ts[2..], end);
    ExprFits(BP_IS + 1, ts[2..], end);
    var (y, rest) := ParseExpr(BP_IS + 1, ts[2..]).value;
    EndSkips(rest, ts, 2);
    BinaryFits(if negate then OpNotDistinct else OpDistinct, lhs, y, min, rest);
  }

  lemma NotShorthand(ts: seq<Token>, end: nat)
    requires NoShorthand(ts, end) && end < |ts|
    ensures !ShorthandAt(ts, 0)
  {}

  lemma {:induction false} RangeFits(lhs: Expr, negate: bool, min: nat, ts: seq<Token>, end: nat)
    requires NoShorthand(ts, end) && AtRange(ts) && Fits(lhs, min, BP_RANGE) && min <= BP_RANGE && ParseRange(lhs, negate, ts).Go?
    requires end <= |ParseRange(lhs, negate, ts).rest|
    ensures var t := ParseRange(lhs, negate, ts); EndOf(t.rest, ts) && Fits(t.lhs, min, Power(t.rest))
    decreases |ts|, 3
  {
    hide ParseExpr, ParseItems, Power, NoShorthand, Halts, Fits;
    if ts[0] == Like {
      ShorthandLess(ts, ts[1..], end);
      ExprFits(BP_RANGE + 1, ts[1..], end);
      var (y, rest) := ParseExpr(BP_RANGE + 1, ts[1..]).value;
      BinaryFits(if negate then OpNotLike else OpLike, lhs, y, min, rest);
      EndSkips(rest, ts, 1);
    } else if ts[0] == Between {
      BetweenFits(lhs, negate, min, ts, end);
    } else {
      ShorthandLess(ts, ts[2..], end);
      ItemsParsedFit(ts[2..], end);
      var (items, rest) := ParseItems(ts[2..]).value;
      EndSkips(rest, ts, 2);
      EndChain(rest[1..], rest, ts);
      InFits(lhs, negate, items, min, Power(rest[1..]));
    }
  }

  lemma InFits(x: Expr, negate: bool, items: Items, min: nat, follow: nat)
    requires Fits(x, min, BP_RANGE) && ItemsFit(items) && min <= BP_RANGE
    ensures Fits(InList(x, negate, items), min, follow)
  {}

  lemma {:induction false} BetweenFits(lhs: Expr, negate: bool, min: nat, ts: seq<Token>, end: nat)
    requires NoShorthand(ts, end) && ts != [] && ts[0] == Between && Fits(lhs, min, BP_RANGE) && min <= BP_RANGE && ParseRange(lhs, negate, ts).Go?
    requires end <= |ParseRange(lhs, negate, ts).rest|
    ensures var t := ParseRange(lhs, negate, ts); EndOf(t.rest, ts) && Fits(t.lhs, min, Power(t.rest))
    decreases |ts|, 2
  {
    hide ParseExpr, ParseItems, Power, NoShorthand, Fits;
    ShorthandLess(ts, ts[1..], end);
    ExprFits(BP_RANGE + 1, ts[1..], end);
    var (lo, mid) := ParseExpr(BP_RANGE + 1, ts[1..]).value;
    EndSkips(mid, ts, 1);
    EndChain(mid[1..], mid, ts);
    ShorthandLess(ts, mid[1..], end);
    ExprFits(BP_RANGE + 1, mid[1..], end);
    var (hi, rest) := ParseExpr(BP_RANGE + 1, mid[1..]).value;
    EndChain(rest, mid[1..], ts);
    assert Power(mid) == BP_AND by { PowerOfAnd(mid); }
    RangeNode(lhs, negate, lo, hi, min, rest);
  }

  lemma PowerOfAnd(ts: seq<Token>)
    requires ts != [] && ts[0] == And
    ensures Power(ts) == BP_AND
  {}

  lemma RangeNode(x: Expr, negate: bool, lo: Expr, hi: Expr, min: nat, rest: seq<Token>)
    requires Fits(x, min, BP_RANGE) && Fits(lo, BP_RANGE + 1, BP_AND) && Fits(hi, BP_RANGE + 1, Power(rest))
    requires min <= BP_RANGE && Halts(BP_RANGE + 1, rest)
    ensures Fits(Range(x, negate, lo, hi), min, Power(rest))
  {
    hide Power;
  }

  lemma {:induction false} ItemsParsedFit(ts: seq<Token>, end: nat)
    requires NoShorthand(ts, end) && ParseItems(ts).Some? && ParseItems(ts).value.1 != [] && ParseItems(ts).value.1[0] == RParen && end <= |ParseItems(ts).value.1|
    ensures EndOf(ParseItems(ts).value.1, ts) && ItemsFit(ParseItems(ts).value.0)
    decreases |ts|, 7
  {
    hide ParseExpr, Power, NoShorthand, Fits;
    ExprFits(BP_NONE, ts, end);
    var (e, rest) := ParseExpr(BP_NONE, ts).value;
    PowerOfParen(rest);
    if rest[0] == Comma {
      EndChain(rest[1..], rest, ts);
      ShorthandLess(ts, rest[1..], end);
      ItemsParsedFit(rest[1..], end);
      EndChain(ParseItems(rest[1..]).value.1, rest[1..], ts);
    }
  }

  // ---- main results ----

  lemma ShorthandShifts(t: Token, ts: seq<Token>, i: nat)
    requires i < |ts|
    ensures ShorthandAt([t] + ts, i + 1) <==> ShorthandAt(ts, i)
  {
    var all := [t] + ts;
    assert all[i + 1] == ts[i] && (i + 1 < |ts| ==> all[i + 2] == ts[i + 1]) && (i + 2 < |ts| ==> all[i + 3] == ts[i + 2]);
  }

  lemma NoShorthandCons(t: Token, ts: seq<Token>, end: nat)
    requires NoShorthand(ts, end) && t != Is
    ensures NoShorthand([t] + ts, end)
  {
    var all := [t] + ts;
    forall i | 0 <= i < |all| - end ensures !ShorthandAt(all, i) {
      if i > 0 {
        assert !ShorthandAt(ts, i - 1);
        ShorthandShifts(t, ts, i - 1);
      }
    }
  }

  lemma NoShorthandIs(ts: seq<Token>, end: nat)
    requires NoShorthand(ts, end) && ts != [] && ts[0] != KwTrue && ts[0] != KwFalse
    requires ts[0] == Not && |ts| > 1 ==> ts[1] != KwTrue && ts[1] != KwFalse
    ensures NoShorthand([Is] + ts, end)
  {
    var all := [Is] + ts;
    forall i | 0 <= i < |all| - end ensures !ShorthandAt(all, i) {
      if i > 0 {
        assert !ShorthandAt(ts, i - 1);
        ShorthandShifts(Is, ts, i - 1);
      }
    }
  }

  lemma OpNoShorthand(op: BinaryOp, ts: seq<Token>, end: nat)
    requires NoShorthand(ts, end)
    ensures NoShorthand(OpTokens(op) + ts, end)
  {
    hide NoShorthand;
    match op
    case OpNotLike =>
      NoShorthandCons(Like, ts, end);
      NoShorthandCons(Not, [Like] + ts, end);
      assert [Not, Like] + ts == [Not] + ([Like] + ts);
    case OpDistinct =>
      NoShorthandCons(From, ts, end);
      NoShorthandCons(Distinct, [From] + ts, end);
      NoShorthandIs([Distinct] + ([From] + ts), end);
      assert [Is, Distinct, From] + ts == [Is] + ([Distinct] + ([From] + ts));
    case OpNotDistinct =>
      NoShorthandCons(From, ts, end);
      NoShorthandCons(Distinct, [From] + ts, end);
      NoShorthandCons(Not, [Distinct] + ([From] + ts), end);
      NoShorthandIs([Not] + ([Distinct] + ([From] + ts)), end);
      assert [Is, Not, Distinct, From] + ts == [Is] + ([Not] + ([Distinct] + ([From] + ts)));
    case _ =>
      NoShorthandCons(OpTokens(op)[0], ts, end);
      assert OpTokens(op) == [OpTokens(op)[0]];
  }

  /** Whether every leaf is one the grammar has. */
  predicate Printable(e: Expr) {
    match e
    case Atom(t) => IsAtom(t)
    case Paren(x) => Printable(x)
    case Unary(_, x) => Printable(x)
    case Binary(_, x, y) => Printable(x) && Printable(y)
    case Cast(x, typ) => Printable(x) && PlainType(typ)
    case IsNull(x, _) => Printable(x)
    case Range(x, _, lo, hi) => Printable(x) && Printable(lo) && Printable(hi)
    case InList(x, _, items) => Printable(x) && ItemsPrintable(items)
  }

  predicate ItemsPrintable(items: Items) {
    match items
    case Last(e) => Printable(e)
    case More(e, rest) => Printable(e) && ItemsPrintable(rest)
  }

  lemma {:induction false} RawNoShorthand(e: Expr, rest: seq<Token>, end: nat)
    requires Printable(e) && NoShorthand(rest, end)
    ensures NoShorthand(Raw(e) + rest, end)
    decreases e
  {
    hide NoShorthand, PlainType;
    match e
    case Atom(t) => NoShorthandCons(t, rest, end);
    case Paren(x) =>
      NoShorthandCons(RParen, rest, end);
      RawNoShorthand(x, [RParen] + rest, end);
      NoShorthandCons(LParen, Raw(x) + ([RParen] + rest), end);
      ParenTokens(x, rest);
    case Unary(op, x) =>
      RawNoShorthand(x, rest, end);
      NoShorthandCons(UnaryToken(op), Raw(x) + rest, end);
      UnaryTokens(op, x, rest);
    case Binary(op, x, y) =>
      RawNoShorthand(y, rest, end);
      OpNoShorthand(op, Raw(y) + rest, end);
      RawNoShorthand(x, OpTokens(op) + (Raw(y) + rest), end);
      assert Raw(e) + rest == Raw(x) + (OpTokens(op) + (Raw(y) + rest));
    case Cast(x, typ) =>
      NoShorthandCons(Word(typ), rest, end);
      NoShorthandCons(DoubleColon, [Word(typ)] + rest, end);
      RawNoShorthand(x, [DoubleColon] + ([Word(typ)] + rest), end);
      assert Raw(e) + rest == Raw(x) + ([DoubleColon] + ([Word(typ)] + rest));
    case IsNull(x, negate) => IsNullNoShorthand(x, negate, rest, end);
    case Range(x, negate, lo, hi) => BetweenNoShorthand(x, negate, lo, hi, rest, end);
    case InList(x, negate, items) => InNoShorthand(x, negate, items, rest, end);
  }

  lemma {:induction false} IsNullNoShorthand(x: Expr, negate: bool, rest: seq<Token>, end: nat)
    requires Printable(x) && NoShorthand(rest, end)
    ensures NoShorthand(Raw(IsNull(x, negate)) + rest, end)
    decreases IsNull(x, negate), 0
  {
    hide NoShorthand, Printable, Raw;
    NoShorthandCons(Null, rest, end);
    NoShorthandCons(Not, [Null] + rest, end);
    var tail := if negate then [Not] + ([Null] + rest) else [Null] + rest;
    NoShorthandIs(tail, end);
    RawNoShorthand(x, [Is] + tail, end);
    IsNullTokens(x, negate, rest);
  }

  lemma IsNullTokens(x: Expr, negate: bool, rest: seq<Token>)
    ensures Raw(IsNull(x, negate)) + rest == Raw(x) + ([Is] + (if negate then [Not] + ([Null] + rest) else [Null] + rest))
  {
    assert [Is] + [] + [Null] == [Is, Null] && [Is] + [Not] + [Null] == [Is, Not, Null];
  }

  lemma {:induction false} BetweenNoShorthand(x: Expr, negate: bool, lo: Expr, hi: Expr, rest: seq<Token>, end: nat)
    requires Printable(x) && Printable(lo) && Printable(hi) && NoShorthand(rest, end)
    ensures NoShorthand(Raw(Range(x, negate, lo, hi)) + rest, end)
    decreases Range(x, negate, lo, hi), 0
  {
    hide NoShorthand, Printable;
    RawNoShorthand(hi, rest, end);
    NoShorthandCons(And, Raw(hi) + rest, end);
    RawNoShorthand(lo, [And] + (Raw(hi) + rest), end);
    var tail := [Between] + (Raw(lo) + ([And] + (Raw(hi) + rest)));
    NoShorthandCons(Between, Raw(lo) + ([And] + (Raw(hi) + rest)), end);
    NoShorthandCons(Not, tail, end);
    RawNoShorthand(x, (if negate then [Not] else []) + tail, end) by { assert [] + tail == tail; }
    BetweenTokens(x, negate, lo, hi, rest);
  }

  lemma {:induction false} InNoShorthand(x: Expr, negate: bool, items: Items, rest: seq<Token>, end: nat)
    requires Printable(x) && ItemsPrintable(items) && NoShorthand(rest, end)
    ensures NoShorthand(Raw(InList(x, negate, items)) + rest, end)
    decreases InList(x, negate, items), 0
  {
    hide NoShorthand, Printable, ItemsPrintable;
    NoShorthandCons(RParen, rest, end);
    ItemsNoShorthand(items, [RParen] + rest, end);
    var body := RawItems(items) + ([RParen] + rest);
    NoShorthandCons(LParen, body, end);
    NoShorthandCons(In, [LParen] + body, end);
    var tail := [In, LParen] + body;
    assert tail == [In] + ([LParen] + body);
    NoShorthandCons(Not, tail, end);
    RawNoShorthand(x, (if negate then [Not] else []) + tail, end) by { assert [] + tail == tail; }
    InTokens(x, negate, items, rest);
  }

  lemma {:induction false} ItemsNoShorthand(items: Items, rest: seq<Token>, end: nat)
    requires ItemsPrintable(items) && NoShorthand(rest, end)
    ensures NoShorthand(RawItems(items) + rest, end)
    decreases items
  {
    hide NoShorthand, Printable;
    match items
    case Last(e) => RawNoShorthand(e, rest, end);
    case More(e, more) =>
      ItemsNoShorthand(more, rest, end);
      NoShorthandCons(Comma, RawItems(more) + rest, end);
      RawNoShorthand(e, [Comma] + (RawItems(more) + rest), end);
      assert RawItems(items) + rest == Raw(e) + ([Comma] + (RawItems(more) + rest));
  }

  /** A tree is read back from its own tokens if and only if every node of it fits where it stands;
      parsing then stops exactly at the token that does not extend it. */
  lemma ReadsBackIff(e: Expr, min: nat, rest: seq<Token>)
    requires Printable(e) && Clear(rest) && Halts(min, rest)
    ensures ParseExpr(min, Raw(e) + rest) == Some((e, rest)) <==> Fits(e, min, Power(rest))
  {
    hide ParseExpr, Fits, Raw, Halts, Clear, Printable, Power;
    if Fits(e, min, Power(rest)) { RawReads(e, min, rest); }
    if ParseExpr(min, Raw(e) + rest) == Some((e, rest)) {
      RawNoShorthand(e, rest, |rest|);
      ExprFits(min, Raw(e) + rest, |rest|);
    }
  }

  // ---- the printer that adds no parenthesis it could spare ----

  /** Adds a parenthesis around each node that does not fit, and nowhere else. */
  function Fix(e: Expr, min: nat, follow: nat): Expr
    decreases e, 1
  {
    if RootFits(e, min, follow) then FixInside(e, min, follow) else Paren(FixInside(e, BP_NONE, 0))
  }

  function FixInside(e: Expr, min: nat, follow: nat): Expr
    decreases e, 0
  {
    match e
    case Atom(_) => e
    case Paren(x) => Paren(Fix(x, BP_NONE, 0))
    case Unary(op, x) => Unary(op, Fix(x, UnaryPower(op), follow))
    case Binary(op, x, y) => Binary(op, Fix(x, min, OpPower(op)), Fix(y, OpPower(op) + 1, follow))
    case Cast(x, typ) => Cast(Fix(x, min, BP_CAST), typ)
    case IsNull(x, negate) => IsNull(Fix(x, min, BP_IS), negate)
    case Range(x, negate, lo, hi) =>
      Range(Fix(x, min, BP_RANGE), negate, Fix(lo, BP_RANGE + 1, BP_AND), Fix(hi, BP_RANGE + 1, follow))
    case InList(x, negate, items) => InList(Fix(x, min, BP_RANGE), negate, FixItems(items))
  }

  function FixItems(items: Items): Items
    decreases items, 0
  {
    match items
    case Last(e) => Last(Fix(e, BP_NONE, 0))
    case More(e, rest) => More(Fix(e, BP_NONE, 0), FixItems(rest))
  }

  /** The tree without its parentheses. */
  function Strip(e: Expr): Expr {
    match e
    case Atom(_) => e
    case Paren(x) => Strip(x)
    case Unary(op, x) => Unary(op, Strip(x))
    case Binary(op, x, y) => Binary(op, Strip(x), Strip(y))
    case Cast(x, typ) => Cast(Strip(x), typ)
    case IsNull(x, negate) => IsNull(Strip(x), negate)
    case Range(x, negate, lo, hi) => Range(Strip(x), negate, Strip(lo), Strip(hi))
    case InList(x, negate, items) => InList(Strip(x), negate, StripItems(items))
  }

  function StripItems(items: Items): Items {
    match items
    case Last(e) => Last(Strip(e))
    case More(e, rest) => More(Strip(e), StripItems(rest))
  }

  lemma RootAlways(e: Expr)
    ensures RootFits(e, BP_NONE, 0)
  {}

  lemma {:induction false} FixFits(e: Expr, min: nat, follow: nat)
    requires Printable(e)
    ensures Fits(Fix(e, min, follow), min, follow) && Strip(Fix(e, min, follow)) == Strip(e)
    decreases e, 1
  {
    hide RootFits, FixInside, Printable, PlainType;
    if RootFits(e, min, follow) {
      InsideFits(e, min, follow);
    } else {
      RootAlways(e);
      InsideFits(e, BP_NONE, 0);
      ParenFits(FixInside(e, BP_NONE, 0), min, follow);
    }
  }

  lemma ParenFits(x: Expr, min: nat, follow: nat)
    requires Fits(x, BP_NONE, 0)
    ensures Fits(Paren(x), min, follow)
  {}

  lemma {:induction false} InsideFits(e: Expr, min: nat, follow: nat)
    requires Printable(e) && RootFits(e, min, follow)
    ensures Fits(FixInside(e, min, follow), min, follow) && Strip(FixInside(e, min, follow)) == Strip(e)
    decreases e, 0
  {
    hide Fix, PlainType;
    match e
    case Atom(_) =>
    case Paren(x) => FixFits(x, BP_NONE, 0);
    case Unary(op, x) => FixFits(x, UnaryPower(op), follow);
    case Binary(op, x, y) =>
      FixFits(x, min, OpPower(op));
      FixFits(y, OpPower(op) + 1, follow);
    case Cast(x, _) => FixFits(x, min, BP_CAST);
    case IsNull(x, _) => FixFits(x, min, BP_IS);
    case Range(x, _, lo, hi) =>
      FixFits(x, min, BP_RANGE);
      FixFits(lo, BP_RANGE + 1, BP_AND);
      FixFits(hi, BP_RANGE + 1, follow);
    case InList(x, _, items) =>
      FixFits(x, min, BP_RANGE);
      FixItemsFit(items);
  }

  lemma {:induction false} FixItemsFit(items: Items)
    requires ItemsPrintable(items)
    ensures ItemsFit(FixItems(items)) && StripItems(FixItems(items)) == StripItems(items)
    decreases items, 0
  {
    hide Fix, Fits;
    match items
    case Last(e) => FixFits(e, BP_NONE, 0);
    case More(e, rest) =>
      FixFits(e, BP_NONE, 0);
      FixItemsFit(rest);
  }

  /** A tree that is read back as it stands gets no parenthesis. */
  lemma {:induction false} FixKeeps(e: Expr, min: nat, follow: nat)
    requires Fits(e, min, follow)
    ensures Fix(e, min, follow) == e
    decreases e
  {
    hide PlainType, RootFits;
    match e
    case Atom(_) =>
    case Paren(x) => FixKeeps(x, BP_NONE, 0);
    case Unary(op, x) => FixKeeps(x, UnaryPower(op), follow);
    case Binary(op, x, y) =>
      FixKeeps(x, min, OpPower(op));
      FixKeeps(y, OpPower(op) + 1, follow);
    case Cast(x, _) => FixKeeps(x, min, BP_CAST);
    case IsNull(x, _) => FixKeeps(x, min, BP_IS);
    case Range(x, _, lo, hi) =>
      FixKeeps(x, min, BP_RANGE);
      FixKeeps(lo, BP_RANGE + 1, BP_AND);
      FixKeeps(hi, BP_RANGE + 1, follow);
    case InList(x, _, items) =>
      FixKeeps(x, min, BP_RANGE);
      FixItemsKeeps(items);
  }

  lemma {:induction false} FixItemsKeeps(items: Items)
    requires ItemsFit(items)
    ensures FixItems(items) == items
    decreases items
  {
    hide Fix, Fits;
    match items
    case Last(e) => FixKeeps(e, BP_NONE, 0);
    case More(e, rest) =>
      FixKeeps(e, BP_NONE, 0);
      FixItemsKeeps(rest);
  }

  /** A tree without parentheses of its own. */
  predicate Bare(e: Expr) {
    match e
    case Atom(_) => true
    case Paren(_) => false
    case Unary(_, x) => Bare(x)
    case Binary(_, x, y) => Bare(x) && Bare(y)
    case Cast(x, _) => Bare(x)
    case IsNull(x, _) => Bare(x)
    case Range(x, _, lo, hi) => Bare(x) && Bare(lo) && Bare(hi)
    case InList(x, _, items) => Bare(x) && ItemsBare(items)
  }

  predicate ItemsBare(items: Items) {
    match items
    case Last(e) => Bare(e)
    case More(e, rest) => Bare(e) && ItemsBare(rest)
  }

  /** `d` is `e` with some of its parentheses taken away, or none. */
  predicate Spares(e: Expr, d: Expr)
    decreases e
  {
    match e
    case Atom(_) => d == e
    case Paren(x) => Spares(x, d) || (d.Paren? && Spares(x, d.x))
    case Unary(op, x) => d.Unary? && d.uop == op && Spares(x, d.x)
    case Binary(op, x, y) => d.Binary? && d.op == op && Spares(x, d.x) && Spares(y, d.y)
    case Cast(x, typ) => d.Cast? && d.typ == typ && Spares(x, d.x)
    case IsNull(x, negate) => d.IsNull? && d.negate == negate && Spares(x, d.x)
    case Range(x, negate, lo, hi) =>
      d.Range? && d.negate == negate && Spares(x, d.x) && Spares(lo, d.lo) && Spares(hi, d.hi)
    case InList(x, negate, items) => d.InList? && d.negate == negate && Spares(x, d.x) && SparesItems(items, d.items)
  }

  predicate SparesItems(items: Items, ds: Items)
    decreases items
  {
    match items
    case Last(e) => ds.Last? && Spares(e, ds.e)
    case More(e, rest) => ds.More? && Spares(e, ds.e) && SparesItems(rest, ds.rest)
  }

  /** No parenthesis the printer adds can be spared: take away any of them, one or several, and some
      node no longer fits, so the tokens no longer read back. */
  lemma {:induction false} FixSparesNone(e: Expr, min: nat, follow: nat, d: Expr)
    requires Bare(e) && Spares(Fix(e, min, follow), d) && Fits(d, min, follow)
    ensures d == Fix(e, min, follow)
    decreases e, 1
  {
    hide RootFits, PlainType;
    if RootFits(e, min, follow) {
      InsideSparesNone(e, min, follow, d);
    } else {
      var inside := FixInside(e, BP_NONE, 0);
      assert Fix(e, min, follow) == Paren(inside);
      if Spares(inside, d) {
        SameRoot(e, d, min, follow);
        assert false;
      } else {
        InsideSparesNone(e, BP_NONE, 0, d.x);
      }
    }
  }

  lemma SameRoot(e: Expr, d: Expr, min: nat, follow: nat)
    requires Bare(e) && Spares(FixInside(e, BP_NONE, 0), d)
    ensures RootFits(d, min, follow) == RootFits(e, min, follow)
  {}

  lemma {:induction false} InsideSparesNone(e: Expr, min: nat, follow: nat, d: Expr)
    requires Bare(e) && Spares(FixInside(e, min, follow), d) && Fits(d, min, follow)
    ensures d == FixInside(e, min, follow)
    decreases e, 0
  {
    hide Fix, PlainType, RootFits;
    match e
    case Atom(_) =>
    case Unary(op, x) => FixSparesNone(x, UnaryPower(op), follow, d.x);
    case Binary(op, x, y) =>
      FixSparesNone(x, min, OpPower(op), d.x);
      FixSparesNone(y, OpPower(op) + 1, follow, d.y);
    case Cast(x, _) => FixSparesNone(x, min, BP_CAST, d.x);
    case IsNull(x, _) => FixSparesNone(x, min, BP_IS, d.x);
    case Range(x, _, lo, hi) =>
      FixSparesNone(x, min, BP_RANGE, d.x);
      FixSparesNone(lo, BP_RANGE + 1, BP_AND, d.lo);
      FixSparesNone(hi, BP_RANGE + 1, follow, d.hi);
    case InList(x, _, items) =>
      FixSparesNone(x, min, BP_RANGE, d.x);
      ItemsSpareNone(items, d.items);
  }

  lemma {:induction false} ItemsSpareNone(items: Items, ds: Items)
    requires ItemsBare(items) && SparesItems(FixItems(items), ds) && ItemsFit(ds)
    ensures ds == FixItems(items)
    decreases items, 0
  {
    hide Fix, Fits, Spares;
    match items
    case Last(e) => FixSparesNone(e, BP_NONE, 0, ds.e);
    case More(e, rest) =>
      FixSparesNone(e, BP_NONE, 0, ds.e);
      ItemsSpareNone(rest, ds.rest);
  }

  /** The number of parentheses in a tree. */
  function Parens(e: Expr): nat {
    match e
    case Atom(_) => 0
    case Paren(x) => 1 + Parens(x)
    case Unary(_, x) => Parens(x)
    case Binary(_, x, y) => Parens(x) + Parens(y)
    case Cast(x, _) => Parens(x)
    case IsNull(x, _) => Parens(x)
    case Range(x, _, lo, hi) => Parens(x) + Parens(lo) + Parens(hi)
    case InList(x, _, items) => Parens(x) + ItemsParens(items)
  }

  function ItemsParens(items: Items): nat {
    match items
    case Last(e) => Parens(e)
    case More(e, rest) => Parens(e) + ItemsParens(rest)
  }

  /** Sparing none is not the same as fewest: `a = (u IS NULL) * (NOT z) + w` spares none, and one
      parenthesis placed further out, `a = (u IS NULL * NOT z) + w`, does as well. */
  lemma SparingNoneIsNotFewest(a: Expr, u: Expr, z: Expr, w: Expr)
    requires a.Atom? && u.Atom? && z.Atom? && w.Atom? && Printable(a) && Printable(u) && Printable(z) && Printable(w)
    ensures var product := Binary(OpMul, IsNull(u, false), Unary(OpNot, z));
            var e, d := Binary(OpEq, a, Binary(OpAdd, product, w)), Binary(OpEq, a, Binary(OpAdd, Paren(product), w));
            && Bare(e) && Strip(d) == e && Fits(d, BP_NONE, 0) && Parens(d) == 1 && Parens(Fix(e, BP_NONE, 0)) == 2
  {
    hide Fix, Fits, RootFits, Printable, Bare, Strip, Parens;
    var product := Binary(OpMul, IsNull(u, false), Unary(OpNot, z));
    FixedBinary(OpEq, a, Binary(OpAdd, product, w), BP_NONE, 0);
    FixedBinary(OpAdd, product, w, BP_COMPARE + 1, 0);
    FixedBinary(OpMul, IsNull(u, false), Unary(OpNot, z), BP_COMPARE + 1, BP_ADD);
    FixedAtom(a, BP_NONE, BP_COMPARE);
    FixedAtom(w, BP_ADD + 1, 0);
    FixedParts(u, z);
    PartsFit(u, z);
    SumFits(a, product, w);
    ProductParens(u, z);
    SumParens(a, product, w);
    SumParens(a, Paren(product), w);
    SumParens(a, Binary(OpMul, Paren(IsNull(u, false)), Paren(Unary(OpNot, z))), w);
  }

  lemma ProductParens(u: Expr, z: Expr)
    requires u.Atom? && z.Atom?
    ensures var product := Binary(OpMul, IsNull(u, false), Unary(OpNot, z));
            && Bare(product) && Strip(Paren(product)) == product && Parens(Paren(product)) == 1
            && Parens(Binary(OpMul, Paren(IsNull(u, false)), Paren(Unary(OpNot, z)))) == 2
  {
    assert Bare(u) && Bare(z) && Strip(u) == u && Strip(z) == z && Parens(u) == 0 && Parens(z) == 0;
    assert Bare(IsNull(u, false)) && Bare(Unary(OpNot, z));
    assert Strip(IsNull(u, false)) == IsNull(u, false) && Strip(Unary(OpNot, z)) == Unary(OpNot, z);
    assert Parens(IsNull(u, false)) == 0 && Parens(Unary(OpNot, z)) == 0;
    assert Parens(Paren(IsNull(u, false))) == 1 && Parens(Paren(Unary(OpNot, z))) == 1;
  }

  lemma SumParens(a: Expr, x: Expr, w: Expr)
    requires a.Atom? && w.Atom?
    ensures var e := Binary(OpEq, a, Binary(OpAdd, x, w));
            && Bare(e) == Bare(x) && Parens(e) == Parens(x)
            && Strip(e) == Binary(OpEq, a, Binary(OpAdd, Strip(x), w))
  {
    assert Bare(a) && Bare(w) && Parens(a) == Parens(w) == 0 && Strip(a) == a && Strip(w) == w;
    assert Strip(Binary(OpAdd, x, w)) == Binary(OpAdd, Strip(x), w);
    assert Bare(Binary(OpAdd, x, w)) == Bare(x) && Parens(Binary(OpAdd, x, w)) == Parens(x);
  }

  lemma FixedBinary(op: BinaryOp, x: Expr, y: Expr, min: nat, follow: nat)
    requires min <= OpPower(op) && follow <= OpPower(op)
    ensures Fix(Binary(op, x, y), min, follow) == Binary(op, Fix(x, min, OpPower(op)), Fix(y, OpPower(op) + 1, follow))
  {}

  lemma FixedAtom(a: Expr, min: nat, follow: nat)
    requires a.Atom?
    ensures Fix(a, min, follow) == a
  {}

  lemma FixedParts(u: Expr, z: Expr)
    requires u.Atom? && z.Atom?
    ensures Fix(IsNull(u, false), BP_COMPARE + 1, BP_MUL) == Paren(IsNull(u, false))
    ensures Fix(Unary(OpNot, z), BP_MUL + 1, BP_ADD) == Paren(Unary(OpNot, z))
  {
    FixedAtom(u, BP_NONE, BP_IS);
    FixedAtom(z, BP_NOT, 0);
    assert FixInside(IsNull(u, false), BP_NONE, 0) == IsNull(u, false);
    assert FixInside(Unary(OpNot, z), BP_NONE, 0) == Unary(OpNot, z);
  }

  lemma PartsFit(u: Expr, z: Expr)
    requires u.Atom? && z.Atom? && Printable(u) && Printable(z)
    ensures Fits(Binary(OpMul, IsNull(u, false), Unary(OpNot, z)), BP_NONE, 0)
  {
    assert Fits(IsNull(u, false), BP_NONE, BP_MUL) && Fits(Unary(OpNot, z), BP_MUL + 1, 0);
  }

  lemma SumFits(a: Expr, product: Expr, w: Expr)
    requires a.Atom? && w.Atom? && Printable(a) && Printable(w) && Fits(product, BP_NONE, 0)
    ensures Fits(Binary(OpEq, a, Binary(OpAdd, Paren(product), w)), BP_NONE, 0)
  {
    assert Fits(Paren(product), BP_COMPARE + 1, BP_ADD);
    assert Fits(Binary(OpAdd, Paren(product), w), BP_COMPARE + 1, 0);
  }

  /** Any tree, printed with parentheses only where a node does not fit and then parsed, comes back as
      itself up to those parentheses, and parsing stops at the token that follows it. */
  lemma PrintThenParse(e: Expr, rest: seq<Token>)
    requires Printable(e) && Clear(rest) && Power(rest) == 0
    ensures ParseExpr(BP_NONE, Raw(Fix(e, BP_NONE, 0)) + rest) == Some((Fix(e, BP_NONE, 0), rest))
    ensures Strip(Fix(e, BP_NONE, 0)) == Strip(e)
  {
    hide ParseExpr, Fits, Raw, Strip, Fix, Printable;
    FixFits(e, BP_NONE, 0);
    RawReads(Fix(e, BP_NONE, 0), BP_NONE, rest);
  }

  // ---- the parser's cursor ----

  /** Items collected so far, followed by the rest. */
  function Joined(es: seq<Expr>, items: Items): Items {
    if es == [] then items else More(es[0], Joined(es[1..], items))
  }

  lemma {:induction false} JoinedSnoc(es: seq<Expr>, e: Expr, items: Items)
    ensures Joined(es + [e], items) == Joined(es, More(e, items))
  {
    if es != [] {
      assert (es + [e])[1..] == es[1..] + [e];
      JoinedSnoc(es[1..], e, items);
    }
  }

  datatype Outcome = Ended | Broken | Extended(lhs: Expr)

  /** The recursive-descent parser: a cursor over the tokens that only moves forward. */
  /** The turn, case by case. */
  lemma TurnCases(lhs: Expr, min: nat, ts: seq<Token>)
    ensures ts == [] ==> InfixTurn(lhs, min, ts) == Stop
    ensures ts != [] && ts[0] == DoubleColon ==> InfixTurn(lhs, min, ts) == if BP_CAST < min then Stop else ParseCast(lhs, ts[1..])
    ensures ts != [] && ts[0] == Is ==> InfixTurn(lhs, min, ts) == if BP_IS < min then Stop else ParseIs(lhs, ts[1..])
    ensures AtRange(ts) ==> InfixTurn(lhs, min, ts) == if BP_RANGE < min then Stop else ParseRange(lhs, false, ts)
    ensures ts != [] && ts[0] == Not ==>
              InfixTurn(lhs, min, ts) == if !AtRange(ts[1..]) || BP_RANGE < min then Stop else ParseRange(lhs, true, ts[1..])
    ensures ts != [] && ts[0] != DoubleColon && ts[0] != Is && ts[0] != Not && !AtRange(ts) ==>
              InfixTurn(lhs, min, ts) == match InfixOp(ts[0])
                case None => Stop
                case Some((op, bp)) =>
                  if bp < min then Stop
                  else match ParseExpr(bp + 1, ts[1..]) case None => Fail case Some((rhs, rest)) => Go(Binary(op, lhs, rhs), rest)
  {
    hide ParseExpr, ParseIs, ParseRange, ParseCast, InfixOp;
  }

  class Cursor {
    const toks: seq<Token>
    var i: nat

    ghost predicate Valid() reads this { i <= |toks| }

    function Ahead(): seq<Token>
      reads this
      requires i <= |toks|
    {
      toks[i..]
    }

    constructor (toks: seq<Token>)
      ensures Valid() && Ahead() == toks
    {
      this.toks, i := toks, 0;
    }

    predicate At(t: Token)
      reads this
      requires i <= |toks|
      ensures At(t) <==> Ahead() != [] && Ahead()[0] == t
    {
      i < |toks| && toks[i] == t
    }

    method Accept(t: Token) returns (b: bool)
      requires Valid()
      modifies this
      ensures Valid() && b == old(At(t)) && Ahead() == if b then old(Ahead())[1..] else old(Ahead())
    {
      b := At(t);
      if b { i := i + 1; }
    }

    method Expression(min: nat) returns (r: Option<Expr>)
      requires Valid()
      modifies this
      decreases |Ahead()|, 6
      ensures Valid() && (r.Some? <==> ParseExpr(min, old(Ahead())).Some?)
      ensures r.Some? ==> ParseExpr(min, old(Ahead())) == Some((r.value, Ahead()))
    {
      hide ParsePrefix, ParseInfix;
      var lhs := Prefix();
      if lhs.None? { return None; }
      r := Infix(lhs.value, min);
    }

    method Infix(lhs0: Expr, min: nat) returns (r: Option<Expr>)
      requires Valid()
      modifies this
      decreases |Ahead()|, 5
      ensures Valid() && (r.Some? <==> ParseInfix(lhs0, min, old(Ahead())).Some?)
      ensures r.Some? ==> ParseInfix(lhs0, min, old(Ahead())) == Some((r.value, Ahead()))
    {
      hide InfixTurn;
      var lhs := lhs0;
      while true
        invariant Valid() && |Ahead()| <= old(|Ahead()|)
        invariant ParseInfix(lhs0, min, old(Ahead())) == ParseInfix(lhs, min, Ahead())
        decreases |Ahead()|
      {
        var turn := Turn(lhs, min);
        match turn {
          case Ended => return Some(lhs);
          case Broken => return None;
          case Extended(lhs') => lhs := lhs';
        }
      }
    }

    /** One turn of the loop: the mixfix forms first, then the table. */
    method Turn(lhs: Expr, min: nat) returns (o: Outcome)
      requires Valid()
      modifies this
      decreases |Ahead()|, 4
      ensures Valid()
      ensures o == Ended ==> InfixTurn(lhs, min, old(Ahead())) == Stop && Ahead() == old(Ahead())
      ensures o == Broken ==> InfixTurn(lhs, min, old(Ahead())) == Fail
      ensures o.Extended? ==> InfixTurn(lhs, min, old(Ahead())) == Go(o.lhs, Ahead())
    {
      hide ParseExpr, ParseIs, ParseRange, ParseCast, InfixOp, InfixTurn, AtRange;
      TurnCases(lhs, min, Ahead());
      if i == |toks| { return Ended; }
      var tok := toks[i];
      if tok == DoubleColon {
        if BP_CAST < min { return Ended; }
        i := i + 1;
        o := CastSuffix(lhs);
        return o;
      }
      if tok == Is {
        if BP_IS < min { return Ended; }
        i := i + 1;
        o := IsSuffix(lhs);
        return o;
      }
      if AtRange(Ahead()) {
        if BP_RANGE < min { return Ended; }
        o := RangeSuffix(lhs, false);
        return o;
      }
      if tok == Not {
        if !AtRange(toks[i + 1..]) { return Ended; }
        if BP_RANGE < min { return Ended; }
        i := i + 1;
        o := RangeSuffix(lhs, true);
        return o;
      }
      var info := InfixOp(tok);
      if info.None? || info.value.1 < min { return Ended; }
      i := i + 1;
      var rhs := Expression(info.value.1 + 1);
      if rhs.None? { return Broken; }
      return Extended(Binary(info.value.0, lhs, rhs.value));
    }

    method CastSuffix(lhs: Expr) returns (o: Outcome)
      requires Valid()
      modifies this
      ensures Valid() && o != Ended
      ensures o == Broken ==> ParseCast(lhs, old(Ahead())) == Fail
      ensures o.Extended? ==> ParseCast(lhs, old(Ahead())) == Go(o.lhs, Ahead())
    {
      hide PlainType;
      if i == |toks| || !toks[i].Word? || !PlainType(toks[i].text) || !Clear(toks[i + 1..]) { return Broken; }
      i := i + 1;
      return Extended(Cast(lhs, toks[i - 1].text));
    }

    method IsSuffix(lhs: Expr) returns (o: Outcome)
      requires Valid()
      modifies this
      decreases |Ahead()|, 7
      ensures Valid() && o != Ended
      ensures o == Broken ==> ParseIs(lhs, old(Ahead())) == Fail
      ensures o.Extended? ==> ParseIs(lhs, old(Ahead())) == Go(o.lhs, Ahead())
    {
      hide ParseExpr, ParseDistinct;
      var negate := Accept(Not);
      var isNull := Accept(Null);
      if isNull { return Extended(IsNull(lhs, negate)); }
      if At(KwTrue) || At(KwFalse) {
        var lit := toks[i];
        i := i + 1;
        return Extended(Binary(if negate then OpDistinct else OpNotDistinct, lhs, Atom(lit)));
      }
      if !At(Distinct) { return Broken; }
      o := DistinctSuffix(lhs, negate);
    }

    method DistinctSuffix(lhs: Expr, negate: bool) returns (o: Outcome)
      requires Valid() && At(Distinct)
      modifies this
      decreases |Ahead()|, 3
      ensures Valid() && o != Ended
      ensures o == Broken ==> ParseDistinct(lhs, negate, old(Ahead())) == Fail
      ensures o.Extended? ==> ParseDistinct(lhs, negate, old(Ahead())) == Go(o.lhs, Ahead())
    {
      hide ParseExpr;
      i := i + 1;
      var from := Accept(From);
      if !from { return Broken; }
      var rhs := Expression(BP_IS + 1);
      if rhs.None? { return Broken; }
      return Extended(Binary(if negate then OpNotDistinct else OpDistinct, lhs, rhs.value));
    }

    method RangeSuffix(lhs: Expr, negate: bool) returns (o: Outcome)
      requires Valid() && AtRange(Ahead())
      modifies this
      decreases |Ahead()|, 3
      ensures Valid() && o != Ended
      ensures o == Broken ==> ParseRange(lhs, negate, old(Ahead())) == Fail
      ensures o.Extended? ==> ParseRange(lhs, negate, old(Ahead())) == Go(o.lhs, Ahead())
    {
      hide ParseExpr, ParseItems;
      var tok := toks[i];
      i := i + 1;
      if tok == Like {
        var rhs := Expression(BP_RANGE + 1);
        if rhs.None? { return Broken; }
        return Extended(Binary(if negate then OpNotLike else OpLike, lhs, rhs.value));
      }
      if tok == Between {
        assert old(Ahead()) == [Between] + Ahead();
        o := Bounds(lhs, negate);
        return;
      }
      var open := Accept(LParen);
      if !open { return Broken; }
      var items := List();
      if items.None? { return Broken; }
      var close := Accept(RParen);
      if !close { return Broken; }
      return Extended(InList(lhs, negate, items.value));
    }

    /** What follows BETWEEN. */
    method Bounds(lhs: Expr, negate: bool) returns (o: Outcome)
      requires Valid()
      modifies this
      decreases |Ahead()|, 7
      ensures Valid() && o != Ended
      ensures o == Broken ==> ParseRange(lhs, negate, [Between] + old(Ahead())) == Fail
      ensures o.Extended? ==> ParseRange(lhs, negate, [Between] + old(Ahead())) == Go(o.lhs, Ahead())
    {
      hide ParseExpr, ParseItems;
      assert ([Between] + Ahead())[1..] == Ahead();
      var lo := Expression(BP_RANGE + 1);
      if lo.None? { return Broken; }
      var conj := Accept(And);
      if !conj { return Broken; }
      var hi := Expression(BP_RANGE + 1);
      if hi.None? { return Broken; }
      return Extended(Range(lhs, negate, lo.value, hi.value));
    }

    /** The items of an IN list, collected in order. */
    method List() returns (r: Option<Items>)
      requires Valid()
      modifies this
      decreases |Ahead()|, 7
      ensures Valid() && (r.Some? <==> ParseItems(old(Ahead())).Some?)
      ensures r.Some? ==> ParseItems(old(Ahead())) == Some((r.value, Ahead()))
    {
      hide ParseExpr;
      var out: seq<Expr> := [];
      while true
        invariant Valid() && |Ahead()| <= old(|Ahead()|)
        invariant ParseItems(old(Ahead())) == match ParseItems(Ahead()) case Some((items, rest)) => Some((Joined(out, items), rest)) case None => None
        decreases |Ahead()|
      {
        var e := Expression(BP_NONE);
        if e.None? { return None; }
        var more := Accept(Comma);
        if !more { return Some(Joined(out, Last(e.value))); }
        forall items { JoinedSnoc(out, e.value, items); }
        out := out + [e.value];
      }
    }

    method Prefix() returns (r: Option<Expr>)
      requires Valid()
      modifies this
      decreases |Ahead()|, 5
      ensures Valid() && (r.Some? <==> ParsePrefix(old(Ahead())).Some?)
      ensures r.Some? ==> ParsePrefix(old(Ahead())) == Some((r.value, Ahead()))
    {
      hide ParseExpr;
      if i == |toks| { return None; }
      var tok := toks[i];
      i := i + 1;
      if tok == Not {
        var x := Expression(BP_NOT);
        if x.None? { return None; }
        return Some(Unary(OpNot, x.value));
      }
      if tok == Minus || tok == Plus {
        var x := Expression(BP_UNARY);
        if x.None? { return None; }
        return Some(Unary(if tok == Plus then OpPos else OpNeg, x.value));
      }
      if tok == LParen {
        var x := Expression(BP_NONE);
        if x.None? { return None; }
        var close := Accept(RParen);
        if !close { return None; }
        return Some(Paren(x.value));
      }
      if IsAtom(tok) && (tok.Word? ==> Clear(toks[i..])) { return Some(Atom(tok)); }
      return None;
    }
  }
}
