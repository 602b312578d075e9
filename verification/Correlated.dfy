/** Subqueries in expressions: rows of enclosing queries are passed down in cells, but only to the
    subqueries marked as correlated; the others are run once and remembered. */
module Correlated {
  import opened Values
  import opened Operators

  datatype Error = NoEnclosingQuery | TooManyRows | OperatorFailed

  /** Expressions and plans. An outer reference of level 0 reads the query containing the subquery the
      reference is in, level 1 the one outside that, and so on. */
  datatype Expr =
    | Const(v: Value)
    | Column(ordinal: nat)
    | OuterRef(level: nat, col: nat)
    | Apply(f: (Value, Value) -> Option<Value>, l: Expr, r: Expr)
    | Scalar(sub: Plan, correlated: bool)
    | Exists(sub: Plan, negate: bool, correlated: bool)
    | InSub(eq: (Value, Value) -> Tri, x: Expr, sub: Plan, negate: bool, correlated: bool)

  datatype Exprs = NoMore | Item(e: Expr, rest: Exprs)

  /** `Combine` is any operator that makes its rows from the rows of its inputs without evaluating an
      expression: a product, a set operation, DISTINCT. With projections below and above it, it also
      stands for those that evaluate some: an outer join over products that carry their condition, a
      sort or a grouping over rows that carry their keys. */
  datatype Plan =
    | Table(rows: seq<Tuple>)
    | Filter(input: Plan, cond: Expr)
    | Project(input: Plan, items: Exprs)
    | Combine(left: Plan, right: Plan, make: (Stream, Stream) -> Stream)

  /** The rows a plan produces, and the error it then stops with, if any. */
  datatype Stream = Stream(rows: seq<Tuple>, err: Option<Error>)

  function BoolValue(b: bool): Value { Value(KindBool, 0, if b then 1 else 0, []) }

  predicate IsTrue(v: Value) { v.k == KindBool && v.n != 0 }

  // ---- the three subquery forms over the rows of the subquery ----

  /** No rows is NULL, more than one an error; a third row is never asked for. */
  function ScalarOf(s: Stream): Result<Value, Error> {
    if |s.rows| >= 2 then Err(TooManyRows)
    else if s.err.Some? then Err(s.err.value)
    else if s.rows == [] then Ok(NULL)
    else Ok(Col(s.rows[0], 0))
  }

  /** Only the first row is asked for. */
  function ExistsOf(s: Stream, negate: bool): Result<Value, Error> {
    if s.rows == [] && s.err.Some? then Err(s.err.value) else Ok(BoolValue((s.rows != []) != negate))
  }

  function FirstColumn(rows: seq<Tuple>): (vals: seq<Value>)
    ensures |vals| == |rows|
  {
    seq(|rows|, i requires 0 <= i < |rows| => Col(rows[i], 0))
  }

  /** A match is true; without one, a NULL anywhere makes the answer unknown. */
  function InResult(eq: (Value, Value) -> Tri, x: Value, vals: seq<Value>, negate: bool): Value {
    if IsNull(x) then NULL
    else if exists i :: 0 <= i < |vals| && eq(x, vals[i]) == Some(true) then BoolValue(!negate)
    else if exists i :: 0 <= i < |vals| && eq(x, vals[i]) == None then NULL
    else BoolValue(negate)
  }

  // ---- three-valued logic ----

  /** True, false or, as None, unknown. */
  type Tri = Option<bool>

  function Or3(a: Tri, b: Tri): Tri {
    if a == Some(true) || b == Some(true) then Some(true) else if a == None || b == None then None else Some(false)
  }

  function Not3(a: Tri): Tri { match a case Some(b) => Some(!b) case None => None }

  /** The disjunction of the comparisons with every row's first column. */
  function AnyEqual(eq: (Value, Value) -> Tri, x: Value, rows: seq<Tuple>): Tri {
    if rows == [] then Some(false) else Or3(eq(x, Col(rows[0], 0)), AnyEqual(eq, x, rows[1..]))
  }

  /** The SQL value of a truth value. */
  function TriValue(t: Tri): Value {
    match t
    case Some(true) => Value(KindBool, 0, 1, [])
    case Some(false) => Value(KindBool, 0, 0, [])
    case None => Value(KindNull, 0, 0, [])
  }

  lemma Or3IsFalse(a: Tri, b: Tri)
    ensures Or3(a, b) == Some(false) <==> a == Some(false) && b == Some(false)
  {
    ThreeCases(a);
    ThreeCases(b);
  }

  lemma ThreeCases(t: Tri)
    ensures t == None || t == Some(true) || t == Some(false)
  {
    match t
    case None =>
    case Some(b) => if b { assert t == Some(true); } else { assert t == Some(false); }
  }

  lemma {:induction false} AnyEqualIs(eq: (Value, Value) -> Tri, x: Value, rows: seq<Tuple>)
    ensures AnyEqual(eq, x, rows) == Some(true) <==> exists i :: 0 <= i < |rows| && eq(x, Col(rows[i], 0)) == Some(true)
    ensures AnyEqual(eq, x, rows) == Some(false) <==> forall i :: 0 <= i < |rows| ==> eq(x, Col(rows[i], 0)) == Some(false)
  {
    if rows != [] {
      var more := rows[1..];
      AnyEqualIs(eq, x, more);
      forall i | 0 <= i < |more| ensures eq(x, Col(more[i], 0)) == eq(x, Col(rows[i + 1], 0)) {}
      var first := eq(x, Col(rows[0], 0));
      assert AnyEqual(eq, x, rows) == Some(false) <==> first == Some(false) && AnyEqual(eq, x, more) == Some(false) by {
        Or3IsFalse(first, AnyEqual(eq, x, more));
      }
      forall i | 0 < i < |rows| ensures eq(x, Col(rows[i], 0)) == eq(x, Col(more[i - 1], 0)) {}
    }
  }

  /** IN is the three-valued disjunction of the comparisons and NOT IN its negation, so that one is
      unknown exactly when the other is; a left side that is NULL makes both unknown. */
  lemma InIsDisjunction(eq: (Value, Value) -> Tri, x: Value, rows: seq<Tuple>)
    ensures x.k == KindNull ==> forall negate :: InResult(eq, x, FirstColumn(rows), negate) == Value(KindNull, 0, 0, [])
    ensures x.k != KindNull ==>
              && InResult(eq, x, FirstColumn(rows), false) == TriValue(AnyEqual(eq, x, rows))
              && InResult(eq, x, FirstColumn(rows), true) == TriValue(Not3(AnyEqual(eq, x, rows)))
  {
    AnyEqualIs(eq, x, rows);
    var vals := FirstColumn(rows);
    if exists i :: 0 <= i < |rows| && eq(x, Col(rows[i], 0)) == Some(true) {
      var i :| 0 <= i < |rows| && eq(x, Col(rows[i], 0)) == Some(true);
      assert eq(x, vals[i]) == Some(true);
    } else if exists i :: 0 <= i < |rows| && eq(x, Col(rows[i], 0)) == None {
      var i :| 0 <= i < |rows| && eq(x, Col(rows[i], 0)) == None;
      assert eq(x, vals[i]) == None;
    }
  }

  // ---- evaluation ----

  /** The enclosing rows a subquery sees, innermost first. With `full` every subquery is handed the row
      it is evaluated against; without, only a marked one. */
  function Push(full: bool, correlated: bool, row: Tuple, stack: seq<Tuple>): seq<Tuple> {
    if full || correlated then [row] + stack else stack
  }

  function Eval(full: bool, e: Expr, row: Tuple, stack: seq<Tuple>): Result<Value, Error>
    decreases e, 0, 0
  {
    match e
    case Const(v) => Ok(v)
    case Column(i) => Ok(Col(row, i))
    case OuterRef(level, i) => if level < |stack| then Ok(Col(stack[level], i)) else Err(NoEnclosingQuery)
    case Apply(f, l, r) =>
      (match Eval(full, l, row, stack)
       case Err(x) => Err(x)
       case Ok(a) =>
         match Eval(full, r, row, stack)
         case Err(x) => Err(x)
         case Ok(b) => match f(a, b) case Some(v) => Ok(v) case None => Err(OperatorFailed))
    case Scalar(sub, correlated) => ScalarOf(Run(full, sub, Push(full, correlated, row, stack)))
    case Exists(sub, negate, correlated) => ExistsOf(Run(full, sub, Push(full, correlated, row, stack)), negate)
    case InSub(eq, x, sub, negate, correlated) =>
      InOf(eq, Eval(full, x, row, stack), Run(full, sub, Push(full, correlated, row, stack)), negate, correlated)
  }

  /** The left side is evaluated before a correlated subquery and after an uncorrelated one. */
  function InOf(eq: (Value, Value) -> Tri, x: Result<Value, Error>, s: Stream, negate: bool, correlated: bool): Result<Value, Error> {
    if correlated && x.Err? then x
    else if s.err.Some? then Err(s.err.value)
    else if x.Err? then x
    else Ok(InResult(eq, x.value, FirstColumn(s.rows), negate))
  }

  function EvalAll(full: bool, es: Exprs, row: Tuple, stack: seq<Tuple>): Result<Tuple, Error>
    decreases es, 0, 0
  {
    match es
    case NoMore => Ok([])
    case Item(e, rest) =>
      match Eval(full, e, row, stack)
      case Err(x) => Err(x)
      case Ok(v) => match EvalAll(full, rest, row, stack) case Err(x) => Err(x) case Ok(vs) => Ok([v] + vs)
  }

  function Run(full: bool, p: Plan, stack: seq<Tuple>): Stream
    decreases p, 0, 0
  {
    match p
    case Table(rows) => Stream(rows, None)
    case Filter(input, cond) =>
      var s := Run(full, input, stack);
      FilterRows(full, cond, s.rows, s.err, stack)
    case Project(input, items) =>
      var s := Run(full, input, stack);
      ProjectRows(full, items, s.rows, s.err, stack)
    case Combine(left, right, make) => make(Run(full, left, stack), Run(full, right, stack))
  }

  function FilterRows(full: bool, cond: Expr, rows: seq<Tuple>, err: Option<Error>, stack: seq<Tuple>): Stream
    decreases cond, 1, |rows|
  {
    if rows == [] then Stream([], err)
    else
      match Eval(full, cond, rows[0], stack)
      case Err(x) => Stream([], Some(x))
      case Ok(v) =>
        var rest := FilterRows(full, cond, rows[1..], err, stack);
        if IsTrue(v) then Stream([rows[0]] + rest.rows, rest.err) else rest
  }

  function ProjectRows(full: bool, items: Exprs, rows: seq<Tuple>, err: Option<Error>, stack: seq<Tuple>): Stream
    decreases items, 1, |rows|
  {
    if rows == [] then Stream([], err)
    else
      match EvalAll(full, items, rows[0], stack)
      case Err(x) => Stream([], Some(x))
      case Ok(out) =>
        var rest := ProjectRows(full, items, rows[1..], err, stack);
        Stream([out] + rest.rows, rest.err)
  }

  // ---- how far references reach ----

  function Max(a: nat, b: nat): nat { if a < b then b else a }

  function Outside(n: nat): nat { if n == 0 then 0 else n - 1 }

  /** How many enclosing rows an expression may read. */
  function Reach(e: Expr): nat {
    match e
    case Const(_) => 0
    case Column(_) => 0
    case OuterRef(level, _) => level + 1
    case Apply(_, l, r) => Max(Reach(l), Reach(r))
    case Scalar(sub, _) => Outside(PlanReach(sub))
    case Exists(sub, _, _) => Outside(PlanReach(sub))
    case InSub(_, x, sub, _, _) => Max(Reach(x), Outside(PlanReach(sub)))
  }

  function ExprsReach(es: Exprs): nat {
    match es
    case NoMore => 0
    case Item(e, rest) => Max(Reach(e), ExprsReach(rest))
  }

  function PlanReach(p: Plan): nat {
    match p
    case Table(_) => 0
    case Filter(input, cond) => Max(PlanReach(input), Reach(cond))
    case Project(input, items) => Max(PlanReach(input), ExprsReach(items))
    case Combine(left, right, _) => Max(PlanReach(left), PlanReach(right))
  }

  /** Every subquery with a reference that reaches past it is marked as correlated. */
  predicate Marked(e: Expr) {
    match e
    case Const(_) => true
    case Column(_) => true
    case OuterRef(_, _) => true
    case Apply(_, l, r) => Marked(l) && Marked(r)
    case Scalar(sub, correlated) => PlanMarked(sub) && (PlanReach(sub) > 0 ==> correlated)
    case Exists(sub, _, correlated) => PlanMarked(sub) && (PlanReach(sub) > 0 ==> correlated)
    case InSub(_, x, sub, _, correlated) => Marked(x) && PlanMarked(sub) && (PlanReach(sub) > 0 ==> correlated)
  }

  predicate ExprsMarked(es: Exprs) {
    match es
    case NoMore => true
    case Item(e, rest) => Marked(e) && ExprsMarked(rest)
  }

  predicate PlanMarked(p: Plan) {
    match p
    case Table(_) => true
    case Filter(input, cond) => PlanMarked(input) && Marked(cond)
    case Project(input, items) => PlanMarked(input) && ExprsMarked(items)
    case Combine(left, right, _) => PlanMarked(left) && PlanMarked(right)
  }

  // ---- cells only where they are needed ----

  /** Two stacks that agree on the rows an expression may read. */
  predicate Agree(n: nat, a: seq<Tuple>, b: seq<Tuple>) {
    n <= |a| && n <= |b| && forall i :: 0 <= i < n ==> a[i] == b[i]
  }

  lemma PushAgrees(f: bool, g: bool, correlated: bool, n: nat, row: Tuple, a: seq<Tuple>, b: seq<Tuple>)
    requires Agree(Outside(n), a, b) && (n > 0 ==> correlated)
    ensures Agree(n, Push(f, correlated, row, a), Push(g, correlated, row, b))
  {}

  lemma AgreeLess(m: nat, n: nat, a: seq<Tuple>, b: seq<Tuple>)
    requires m <= n && Agree(n, a, b)
    ensures Agree(m, a, b)
  {}

  lemma {:induction false} SameValue(f: bool, g: bool, e: Expr, row: Tuple, a: seq<Tuple>, b: seq<Tuple>)
    requires Marked(e) && Agree(Reach(e), a, b)
    ensures Eval(f, e, row, a) == Eval(g, e, row, b)
    decreases e, 0, 0
  {
    hide Agree, ScalarOf, ExistsOf, InOf;
    match e
    case Const(_) =>
    case Column(_) =>
    case OuterRef(level, _) => ReadsSame(level, a, b);
    case Apply(_, l, r) =>
      AgreeLess(Reach(l), Reach(e), a, b);
      AgreeLess(Reach(r), Reach(e), a, b);
      SameValue(f, g, l, row, a, b);
      SameValue(f, g, r, row, a, b);
    case Scalar(sub, correlated) => SameSub(f, g, sub, correlated, row, a, b);
    case Exists(sub, _, correlated) => SameSub(f, g, sub, correlated, row, a, b);
    case InSub(_, x, sub, _, correlated) =>
      AgreeLess(Reach(x), Reach(e), a, b);
      AgreeLess(Outside(PlanReach(sub)), Reach(e), a, b);
      SameValue(f, g, x, row, a, b);
      SameSub(f, g, sub, correlated, row, a, b);
  }

  lemma ReadsSame(level: nat, a: seq<Tuple>, b: seq<Tuple>)
    requires Agree(level + 1, a, b)
    ensures level < |a| && level < |b| && a[level] == b[level]
  {}

  lemma {:induction false} SameSub(f: bool, g: bool, sub: Plan, correlated: bool, row: Tuple, a: seq<Tuple>, b: seq<Tuple>)
    requires PlanMarked(sub) && (PlanReach(sub) > 0 ==> correlated) && Agree(Outside(PlanReach(sub)), a, b)
    ensures Run(f, sub, Push(f, correlated, row, a)) == Run(g, sub, Push(g, correlated, row, b))
    decreases sub, 1, 0
  {
    PushAgrees(f, g, correlated, PlanReach(sub), row, a, b);
    SameRows(f, g, sub, Push(f, correlated, row, a), Push(g, correlated, row, b));
  }

  lemma {:induction false} SameTuple(f: bool, g: bool, es: Exprs, row: Tuple, a: seq<Tuple>, b: seq<Tuple>)
    requires ExprsMarked(es) && Agree(ExprsReach(es), a, b)
    ensures EvalAll(f, es, row, a) == EvalAll(g, es, row, b)
    decreases es, 0, 0
  {
    hide Agree;
    match es
    case NoMore =>
    case Item(e, rest) =>
      AgreeLess(Reach(e), ExprsReach(es), a, b);
      AgreeLess(ExprsReach(rest), ExprsReach(es), a, b);
      SameValue(f, g, e, row, a, b);
      SameTuple(f, g, rest, row, a, b);
  }

  lemma {:induction false} SameRows(f: bool, g: bool, p: Plan, a: seq<Tuple>, b: seq<Tuple>)
    requires PlanMarked(p) && Agree(PlanReach(p), a, b)
    ensures Run(f, p, a) == Run(g, p, b)
    decreases p, 0, 0
  {
    hide Agree;
    match p
    case Table(_) =>
    case Filter(input, cond) =>
      AgreeLess(PlanReach(input), PlanReach(p), a, b);
      AgreeLess(Reach(cond), PlanReach(p), a, b);
      SameRows(f, g, input, a, b);
      SameFiltered(f, g, cond, Run(f, input, a).rows, Run(f, input, a).err, a, b);
    case Project(input, items) =>
      AgreeLess(PlanReach(input), PlanReach(p), a, b);
      AgreeLess(ExprsReach(items), PlanReach(p), a, b);
      SameRows(f, g, input, a, b);
      SameProjected(f, g, items, Run(f, input, a).rows, Run(f, input, a).err, a, b);
    case Combine(left, right, _) =>
      AgreeLess(PlanReach(left), PlanReach(p), a, b);
      AgreeLess(PlanReach(right), PlanReach(p), a, b);
      SameRows(f, g, left, a, b);
      SameRows(f, g, right, a, b);
  }

  lemma {:induction false} SameFiltered(f: bool, g: bool, cond: Expr, rows: seq<Tuple>, err: Option<Error>, a: seq<Tuple>, b: seq<Tuple>)
    requires Marked(cond) && Agree(Reach(cond), a, b)
    ensures FilterRows(f, cond, rows, err, a) == FilterRows(g, cond, rows, err, b)
    decreases cond, 1, |rows|
  {
    hide Agree;
    if rows != [] {
      SameValue(f, g, cond, rows[0], a, b);
      SameFiltered(f, g, cond, rows[1..], err, a, b);
    }
  }

  lemma {:induction false} SameProjected(f: bool, g: bool, items: Exprs, rows: seq<Tuple>, err: Option<Error>, a: seq<Tuple>, b: seq<Tuple>)
    requires ExprsMarked(items) && Agree(ExprsReach(items), a, b)
    ensures ProjectRows(f, items, rows, err, a) == ProjectRows(g, items, rows, err, b)
    decreases items, 1, |rows|
  {
    hide Agree;
    if rows != [] {
      SameTuple(f, g, items, rows[0], a, b);
      SameProjected(f, g, items, rows[1..], err, a, b);
    }
  }

  /** For any nesting in which every subquery that something inside it reaches past is marked, passing
      rows down only to the marked subqueries evaluates to the same as passing every enclosing row. */
  lemma CellsKeepMeaning(e: Expr, row: Tuple, stack: seq<Tuple>)
    requires Marked(e) && Reach(e) <= |stack|
    ensures Eval(false, e, row, stack) == Eval(true, e, row, stack)
  {
    SameValue(false, true, e, row, stack, stack);
  }

  /** A subquery nothing inside reaches past has one answer, whatever row it is evaluated for. */
  lemma UnmarkedIsConstant(full: bool, sub: Plan, a: seq<Tuple>, b: seq<Tuple>)
    requires PlanMarked(sub) && PlanReach(sub) == 0
    ensures Run(full, sub, a) == Run(full, sub, b)
  {
    SameRows(full, full, sub, a, b);
  }

  /** The mark is needed: this unmarked subquery reads the wrong row. */
  lemma UnmarkedReadsWrongRow()
    ensures var e := Scalar(Project(Table([[]]), Item(OuterRef(0, 0), NoMore)), false);
            && !Marked(e) && Reach(e) == 0
            && Eval(true, e, [IntValue(1)], [[IntValue(2)]]) == Ok(IntValue(1))
            && Eval(false, e, [IntValue(1)], [[IntValue(2)]]) == Ok(IntValue(2))
  {
    var sub := Project(Table([[]]), Item(OuterRef(0, 0), NoMore));
    assert PlanReach(sub) == 1;
    OneRow([[IntValue(1)], [IntValue(2)]], IntValue(1));
    OneRow([[IntValue(2)]], IntValue(2));
    assert [[IntValue(1)]] + [[IntValue(2)]] == [[IntValue(1)], [IntValue(2)]];
    assert Run(true, sub, [[IntValue(1)], [IntValue(2)]]).rows == [[IntValue(1)]];
  }

  lemma OneRow(stack: seq<Tuple>, v: Value)
    requires stack != [] && Col(stack[0], 0) == v
    ensures forall full :: Run(full, Project(Table([[]]), Item(OuterRef(0, 0), NoMore)), stack) == Stream([[v]], None)
  {
    var items := Item(OuterRef(0, 0), NoMore);
    forall full ensures ProjectRows(full, items, [[]], None, stack) == Stream([[v]], None) {
      assert EvalAll(full, NoMore, [], stack) == Ok([]);
      assert Eval(full, OuterRef(0, 0), [], stack) == Ok(v);
      assert [v] + [] == [v];
      assert EvalAll(full, items, [], stack) == Ok([v]);
      var one: seq<Tuple> := [[]];
      assert one[1..] == [];
      assert ProjectRows(full, items, [], None, stack) == Stream([], None);
    }
  }

  // ---- what evaluation reads and keeps ----

  /** Subqueries nested one inside the other, each over one row, with an outer reference innermost. */
  function Nested(rows: seq<Tuple>, level: nat, col: nat): Expr {
    if rows == [] then OuterRef(level, col)
    else Scalar(Project(Table([rows[0]]), Item(Nested(rows[1..], level, col), NoMore)), true)
  }

  /** Level nought reads the row of the query around the innermost subquery, level one the next further
      out, down to the row the whole is evaluated for and then the enclosing rows it was given. */
  lemma {:induction false} LevelsReadOutwards(full: bool, rows: seq<Tuple>, row: Tuple, stack: seq<Tuple>, level: nat, col: nat)
    requires level < |rows| + |stack|
    ensures Eval(full, Nested(rows, level, col), row, stack)
            == Ok(Col(if level < |rows| then ([row] + rows)[|rows| - 1 - level] else stack[level - |rows|], col))
  {
    if rows != [] {
      var inner := Nested(rows[1..], level, col);
      LevelsReadOutwards(full, rows[1..], rows[0], [row] + stack, level, col);
      assert level < |rows| - 1 ==> ([rows[0]] + rows[1..])[|rows| - 2 - level] == ([row] + rows)[|rows| - 1 - level];
      SingleValue(full, inner, rows[0], [row] + stack);
    }
  }

  lemma SingleValue(full: bool, e: Expr, row: Tuple, stack: seq<Tuple>)
    requires Eval(full, e, row, stack).Ok?
    ensures Run(full, Project(Table([row]), Item(e, NoMore)), stack) == Stream([[Eval(full, e, row, stack).value]], None)
  {
    var items := Item(e, NoMore);
    assert EvalAll(full, NoMore, row, stack) == Ok([]);
    assert [Eval(full, e, row, stack).value] + [] == [Eval(full, e, row, stack).value];
    assert EvalAll(full, items, row, stack) == Ok([Eval(full, e, row, stack).value]);
    assert [row][1..] == [];
    assert ProjectRows(full, items, [], None, stack) == Stream([], None);
  }

  /** A filter passes on, in order and each once, the rows for which its condition is TRUE, up to the
      first for which it fails; that failure, or else its input's, ends it. */
  lemma {:induction false} FilterSelects(full: bool, cond: Expr, rows: seq<Tuple>, err: Option<Error>, stack: seq<Tuple>)
    returns (n: nat, kept: seq<nat>)
    ensures n <= |rows| && forall i :: 0 <= i < n ==> Eval(full, cond, rows[i], stack).Ok?
    ensures var s := FilterRows(full, cond, rows, err, stack);
            && (if n < |rows| then Eval(full, cond, rows[n], stack).Err? && s.err == Some(Eval(full, cond, rows[n], stack).error) else s.err == err)
            && |s.rows| == |kept| && (forall j :: 0 <= j < |kept| ==> kept[j] < n && s.rows[j] == rows[kept[j]])
    ensures forall i, j :: 0 <= i < j < |kept| ==> kept[i] < kept[j]
    ensures forall i :: 0 <= i < n ==> (i in kept <==> var v := Eval(full, cond, rows[i], stack).value; v.k == KindBool && v.n != 0)
  {
    hide Eval, IsTrue, FilterRows;
    if rows == [] {
      NoneKept(full, cond, err, stack);
      return 0, [];
    }
    var first := Eval(full, cond, rows[0], stack);
    FirstKept(full, cond, rows, err, stack);
    if first.Err? { return 0, []; }
    var m, more := FilterSelects(full, cond, rows[1..], err, stack);
    var head: seq<nat> := if IsTrue(first.value) then [0] else [];
    var later := seq(|more|, j requires 0 <= j < |more| => more[j] + 1);
    n, kept := m + 1, head + later;
    SelectsOneMore(more, later, head, m);
    KeepsOneMore(rows, FilterRows(full, cond, rows[1..], err, stack).rows, more, head, later);
    forall i | 0 < i < |rows| ensures Eval(full, cond, rows[i], stack) == Eval(full, cond, rows[1..][i - 1], stack) {}
    TrueIs(first.value);
    forall i | 0 <= i < n ensures i in kept <==> var v := Eval(full, cond, rows[i], stack).value; v.k == KindBool && v.n != 0 {
      if i > 0 { assert i - 1 in more <==> var v := Eval(full, cond, rows[1..][i - 1], stack).value; v.k == KindBool && v.n != 0; }
    }
  }

  lemma NoneKept(full: bool, cond: Expr, err: Option<Error>, stack: seq<Tuple>)
    ensures FilterRows(full, cond, [], err, stack) == Stream([], err)
  {}

  lemma TrueIs(v: Value)
    ensures IsTrue(v) <==> v.k == KindBool && v.n != 0
  {}

  lemma FirstKept(full: bool, cond: Expr, rows: seq<Tuple>, err: Option<Error>, stack: seq<Tuple>)
    requires rows != []
    ensures var first, s, rest := Eval(full, cond, rows[0], stack), FilterRows(full, cond, rows, err, stack), FilterRows(full, cond, rows[1..], err, stack);
            if first.Err? then s == Stream([], Some(first.error))
            else s.err == rest.err && s.rows == (if IsTrue(first.value) then [rows[0]] else []) + rest.rows
  {
    hide Eval, IsTrue;
  }

  lemma KeepsOneMore(rows: seq<Tuple>, out: seq<Tuple>, more: seq<nat>, head: seq<nat>, later: seq<nat>)
    requires rows != [] && |out| == |more| == |later| && (head == [] || head == [0])
    requires forall j :: 0 <= j < |more| ==> later[j] == more[j] + 1 && more[j] < |rows| - 1 && out[j] == rows[1..][more[j]]
    ensures var all, kept := (if head == [0] then [rows[0]] else []) + out, head + later;
            |all| == |kept| && forall j :: 0 <= j < |kept| ==> kept[j] < |rows| && all[j] == rows[kept[j]]
  {}

  lemma SelectsOneMore(more: seq<nat>, later: seq<nat>, head: seq<nat>, m: nat)
    requires |later| == |more| && (forall j :: 0 <= j < |more| ==> later[j] == more[j] + 1 && more[j] < m)
    requires head == [] || head == [0]
    requires forall i, j :: 0 <= i < j < |more| ==> more[i] < more[j]
    ensures forall i, j :: 0 <= i < j < |head + later| ==> (head + later)[i] < (head + later)[j]
    ensures forall i: nat :: i in head + later <==> if i == 0 then head == [0] else i - 1 in more
  {
    forall i: nat | i > 0 && i - 1 in more ensures i in later {
      var j :| 0 <= j < |more| && more[j] == i - 1;
      assert later[j] == i;
    }
  }

  /** A projection evaluates its items for every row, up to the first for which one fails. */
  lemma {:induction false} ProjectMaps(full: bool, items: Exprs, rows: seq<Tuple>, err: Option<Error>, stack: seq<Tuple>)
    ensures var s := ProjectRows(full, items, rows, err, stack); var n := |s.rows|;
            && n <= |rows| && (forall i :: 0 <= i < n ==> EvalAll(full, items, rows[i], stack) == Ok(s.rows[i]))
            && (if n < |rows| then EvalAll(full, items, rows[n], stack).Err? && s.err == Some(EvalAll(full, items, rows[n], stack).error) else s.err == err)
  {
    if rows != [] && EvalAll(full, items, rows[0], stack).Ok? {
      ProjectMaps(full, items, rows[1..], err, stack);
      assert forall i :: 0 < i < |rows| ==> rows[i] == rows[1..][i - 1];
    }
  }

  // ---- compiled subqueries ----

  /** Collects first columns, stopping early once `limit` rows have come; nought means no limit. */
  method DrainColumn(s: Stream, limit: nat) returns (r: Result<seq<Value>, Error>)
    ensures limit > 0 && |s.rows| >= limit ==> r == Ok(FirstColumn(s.rows)[..limit])
    ensures !(limit > 0 && |s.rows| >= limit) ==> r == if s.err.Some? then Err(s.err.value) else Ok(FirstColumn(s.rows))
  {
    var vals: seq<Value> := [];
    while limit == 0 || |vals| < limit
      invariant |vals| <= |s.rows| && vals == FirstColumn(s.rows)[..|vals|]
      invariant limit > 0 ==> |vals| <= limit
      decreases |s.rows| - |vals|
    {
      if |vals| == |s.rows| {
        assert FirstColumn(s.rows)[..|vals|] == FirstColumn(s.rows);
        if s.err.Some? { return Err(s.err.value); }
        return Ok(vals);
      }
      vals := vals + [Col(s.rows[|vals|], 0)];
    }
    return Ok(vals);
  }

  /** Three-valued IN over a list of candidates. */
  method InLoop(eq: (Value, Value) -> Tri, x: Value, vals: seq<Value>, negate: bool) returns (v: Value)
    ensures v == InResult(eq, x, vals, negate)
    ensures x.k == KindNull ==> v == Value(KindNull, 0, 0, [])
    ensures x.k != KindNull && (exists i :: 0 <= i < |vals| && eq(x, vals[i]) == Some(true)) ==>
              v == Value(KindBool, 0, if negate then 0 else 1, [])
    ensures x.k != KindNull && (forall i :: 0 <= i < |vals| ==> eq(x, vals[i]) != Some(true)) && (exists i :: 0 <= i < |vals| && eq(x, vals[i]) == None) ==>
              v == Value(KindNull, 0, 0, [])
    ensures x.k != KindNull && (forall i :: 0 <= i < |vals| ==> eq(x, vals[i]) == Some(false)) ==>
              v == Value(KindBool, 0, if negate then 1 else 0, [])
  {
    if IsNull(x) { return NULL; }
    var sawNull := false;
    for i := 0 to |vals|
      invariant forall j :: 0 <= j < i ==> eq(x, vals[j]) != Some(true)
      invariant sawNull <==> exists j :: 0 <= j < i && eq(x, vals[j]) == None
    {
      var same := eq(x, vals[i]);
      if same == Some(true) { return BoolValue(!negate); }
      if same == None { sawNull := true; }
    }
    if sawNull { return NULL; }
    return BoolValue(negate);
  }

  /** A compiled scalar subquery. A marked one writes the row into its cell and runs again; an unmarked
      one runs until it succeeds once and answers from memory from then on. */
  class ScalarSub {
    const sub: Plan
    const correlated: bool
    const stack: seq<Tuple>
    var cell: Tuple
    var cached: Value
    var done: bool

    ghost predicate Valid()
      reads this
    {
      done ==> !correlated && ScalarOf(Run(false, sub, stack)) == Ok(cached)
    }

    constructor (sub: Plan, correlated: bool, stack: seq<Tuple>)
      ensures Valid() && this.sub == sub && this.correlated == correlated && this.stack == stack
    {
      this.sub, this.correlated, this.stack := sub, correlated, stack;
      cell, cached, done := [], NULL, false;
    }

    method Answer(row: Tuple) returns (r: Result<Value, Error>)
      requires Valid()
      modifies this
      ensures Valid() && r == Eval(false, Scalar(sub, correlated), row, stack)
      ensures Marked(Scalar(sub, correlated)) && Reach(Scalar(sub, correlated)) <= |stack| ==>
                r == Eval(true, Scalar(sub, correlated), row, stack)
      ensures var s := Run(false, sub, if correlated then [row] + stack else stack);
              r == if |s.rows| >= 2 then Err(TooManyRows) else if s.err.Some? then Err(s.err.value)
                   else Ok(if |s.rows| == 0 then Value(KindNull, 0, 0, []) else Col(s.rows[0], 0))
    {
      if Marked(Scalar(sub, correlated)) && Reach(Scalar(sub, correlated)) <= |stack| {
        CellsKeepMeaning(Scalar(sub, correlated), row, stack);
      }
      if correlated {
        cell := row;
        r := One(Run(false, sub, [cell] + stack));
        return r;
      }
      if done { return Ok(cached); }
      r := One(Run(false, sub, stack));
      if r.Ok? { cached, done := r.value, true; }
    }

    static method One(s: Stream) returns (r: Result<Value, Error>)
      ensures r == ScalarOf(s)
      ensures r == if |s.rows| >= 2 then Err(TooManyRows) else if s.err.Some? then Err(s.err.value)
                   else Ok(if |s.rows| == 0 then Value(KindNull, 0, 0, []) else Col(s.rows[0], 0))
    {
      var vals := DrainColumn(s, 2);
      if vals.Err? { return Err(vals.error); }
      if |vals.value| == 0 { return Ok(NULL); }
      if |vals.value| == 1 { return Ok(vals.value[0]); }
      return Err(TooManyRows);
    }
  }

  /** A compiled EXISTS. */
  class ExistsSub {
    const sub: Plan
    const negate: bool
    const correlated: bool
    const stack: seq<Tuple>
    var cell: Tuple
    var found: bool
    var done: bool

    ghost predicate Valid()
      reads this
    {
      done ==> !correlated && ExistsOf(Run(false, sub, stack), negate) == Ok(BoolValue(found != negate))
    }

    constructor (sub: Plan, negate: bool, correlated: bool, stack: seq<Tuple>)
      ensures Valid() && this.sub == sub && this.negate == negate && this.correlated == correlated && this.stack == stack
    {
      this.sub, this.negate, this.correlated, this.stack := sub, negate, correlated, stack;
      cell, found, done := [], false, false;
    }

    method Answer(row: Tuple) returns (r: Result<Value, Error>)
      requires Valid()
      modifies this
      ensures Valid() && r == Eval(false, Exists(sub, negate, correlated), row, stack)
      ensures Marked(Exists(sub, negate, correlated)) && Reach(Exists(sub, negate, correlated)) <= |stack| ==>
                r == Eval(true, Exists(sub, negate, correlated), row, stack)
      ensures var s := Run(false, sub, if correlated then [row] + stack else stack);
              r == if |s.rows| > 0 then Ok(Value(KindBool, 0, if negate then 0 else 1, []))
                   else if s.err.Some? then Err(s.err.value) else Ok(Value(KindBool, 0, if negate then 1 else 0, []))
    {
      if Marked(Exists(sub, negate, correlated)) && Reach(Exists(sub, negate, correlated)) <= |stack| {
        CellsKeepMeaning(Exists(sub, negate, correlated), row, stack);
      }
      if correlated {
        cell := row;
        var s := Run(false, sub, [cell] + stack);
        if s.rows == [] && s.err.Some? { return Err(s.err.value); }
        return Ok(BoolValue((s.rows != []) != negate));
      }
      if !done {
        var s := Run(false, sub, stack);
        if s.rows == [] && s.err.Some? { return Err(s.err.value); }
        found, done := s.rows != [], true;
      }
      return Ok(BoolValue(found != negate));
    }
  }

  /** A compiled IN over a subquery. */
  class InSubquery {
    const eq: (Value, Value) -> Tri
    const x: Expr
    const sub: Plan
    const negate: bool
    const correlated: bool
    const stack: seq<Tuple>
    var cell: Tuple
    var vals: seq<Value>
    var done: bool

    ghost function Whole(): Expr { InSub(eq, x, sub, negate, correlated) }

    ghost predicate Valid()
      reads this
    {
      done ==> !correlated && var s := Run(false, sub, stack); s.err == None && vals == FirstColumn(s.rows)
    }

    constructor (eq: (Value, Value) -> Tri, x: Expr, sub: Plan, negate: bool, correlated: bool, stack: seq<Tuple>)
      ensures Valid() && Whole() == InSub(eq, x, sub, negate, correlated) && this.stack == stack
    {
      this.eq, this.x, this.sub, this.negate, this.correlated, this.stack := eq, x, sub, negate, correlated, stack;
      cell, vals, done := [], [], false;
    }

    lemma Disjunction(row: Tuple)
      ensures var left, s := Eval(false, x, row, stack), Run(false, sub, if correlated then [row] + stack else stack);
              Eval(false, Whole(), row, stack) ==
              if correlated && left.Err? then left else if s.err.Some? then Err(s.err.value) else if left.Err? then left
              else if left.value.k == KindNull then Ok(Value(KindNull, 0, 0, []))
              else Ok(TriValue(if negate then Not3(AnyEqual(eq, left.value, s.rows)) else AnyEqual(eq, left.value, s.rows)))
    {
      var left, s := Eval(false, x, row, stack), Run(false, sub, if correlated then [row] + stack else stack);
      if left.Ok? { InIsDisjunction(eq, left.value, s.rows); }
    }

    method Answer(row: Tuple) returns (r: Result<Value, Error>)
      requires Valid()
      modifies this
      ensures Valid() && r == Eval(false, Whole(), row, stack)
      ensures Marked(Whole()) && Reach(Whole()) <= |stack| ==> r == Eval(true, Whole(), row, stack)
      ensures var left, s := Eval(false, x, row, stack), Run(false, sub, if correlated then [row] + stack else stack);
              r == if correlated && left.Err? then left else if s.err.Some? then Err(s.err.value) else if left.Err? then left
                   else if left.value.k == KindNull then Ok(Value(KindNull, 0, 0, []))
                   else Ok(TriValue(if negate then Not3(AnyEqual(eq, left.value, s.rows)) else AnyEqual(eq, left.value, s.rows)))
    {
      Disjunction(row);
      if Marked(Whole()) && Reach(Whole()) <= |stack| { CellsKeepMeaning(Whole(), row, stack); }
      var out: Value;
      if correlated {
        cell := row;
        var xv := Eval(false, x, row, stack);
        if xv.Err? { return xv; }
        var drained := DrainColumn(Run(false, sub, [cell] + stack), 0);
        if drained.Err? { return Err(drained.error); }
        out := InLoop(eq, xv.value, drained.value, negate);
        return Ok(out);
      }
      if !done {
        var drained := DrainColumn(Run(false, sub, stack), 0);
        if drained.Err? { return Err(drained.error); }
        vals, done := drained.value, true;
      }
      var xv := Eval(false, x, row, stack);
      if xv.Err? { return xv; }
      out := InLoop(eq, xv.value, vals, negate);
      return Ok(out);
    }
  }
}
