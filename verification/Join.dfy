/** The nested-loop join, all five flavours, against the rows a join is defined to return. */
module Join {
  import opened Values
  import opened Operators

  type Condition = Option<Tuple -> Truth>

  // ---- what a join returns ----

  predicate Joins(on: Condition, row: Tuple) { on.None? || on.value(row) == True }

  function Nulls(n: nat): Tuple { seq(n, _ => NULL) }

  /** The rows a left row makes with its partners, in the right side's order. */
  function Pairs(on: Condition, l: Tuple, rs: seq<Tuple>): seq<Tuple> {
    if rs == [] then []
    else
      var r := rs[|rs| - 1];
      Pairs(on, l, rs[..|rs| - 1]) + (if Joins(on, l + r) then [l + r] else [])
  }

  datatype Flavour = Flavour(leftWidth: nat, rightWidth: nat, keepLeft: bool, keepRight: bool)

  /** Everything one left row contributes: its pairs, or itself padded when it is kept and has none. */
  function FromLeft(on: Condition, f: Flavour, l: Tuple, rs: seq<Tuple>): seq<Tuple> {
    var pairs := Pairs(on, l, rs);
    if pairs == [] && f.keepLeft then [l + Nulls(f.rightWidth)] else pairs
  }

  function FromLefts(on: Condition, f: Flavour, ls: seq<Tuple>, rs: seq<Tuple>): seq<Tuple> {
    if ls == [] then [] else FromLefts(on, f, ls[..|ls| - 1], rs) + FromLeft(on, f, ls[|ls| - 1], rs)
  }

  predicate Partnered(on: Condition, ls: seq<Tuple>, r: Tuple) {
    exists i :: 0 <= i < |ls| && Joins(on, ls[i] + r)
  }

  /** The right rows no left row joins with, padded. */
  function Unpartnered(on: Condition, f: Flavour, ls: seq<Tuple>, rs: seq<Tuple>): seq<Tuple> {
    if rs == [] then []
    else
      var r := rs[|rs| - 1];
      Unpartnered(on, f, ls, rs[..|rs| - 1]) + (if Partnered(on, ls, r) then [] else [Nulls(f.leftWidth) + r])
  }

  function Output(on: Condition, f: Flavour, ls: seq<Tuple>, rs: seq<Tuple>): seq<Tuple> {
    FromLefts(on, f, ls, rs) + (if f.keepRight then Unpartnered(on, f, ls, rs) else [])
  }

  lemma PairsNext(on: Condition, l: Tuple, rs: seq<Tuple>, i: nat)
    requires i < |rs|
    ensures Pairs(on, l, rs[..i + 1]) == Pairs(on, l, rs[..i]) + (if Joins(on, l + rs[i]) then [l + rs[i]] else [])
  {
    hide Joins;
    assert rs[..i + 1][..i] == rs[..i];
  }

  lemma UnpartneredNext(on: Condition, f: Flavour, ls: seq<Tuple>, rs: seq<Tuple>, i: nat)
    requires i < |rs|
    ensures Unpartnered(on, f, ls, rs[..i + 1])
            == Unpartnered(on, f, ls, rs[..i]) + (if Partnered(on, ls, rs[i]) then [] else [Nulls(f.leftWidth) + rs[i]])
  {
    hide Partnered, Nulls;
    assert rs[..i + 1][..i] == rs[..i];
  }

  lemma FromLeftsNext(on: Condition, f: Flavour, ls: seq<Tuple>, l: Tuple, rs: seq<Tuple>)
    ensures FromLefts(on, f, ls + [l], rs) == FromLefts(on, f, ls, rs) + FromLeft(on, f, l, rs)
  {
    hide FromLeft;
    assert (ls + [l])[..|ls|] == ls;
  }

  lemma PartneredNext(on: Condition, ls: seq<Tuple>, l: Tuple, r: Tuple)
    ensures Partnered(on, ls + [l], r) <==> Partnered(on, ls, r) || Joins(on, l + r)
  {
    hide Joins;
    if Joins(on, l + r) { assert (ls + [l])[|ls|] == l; }
    if i :| 0 <= i < |ls| && Joins(on, ls[i] + r) { assert (ls + [l])[i] == ls[i]; }
  }

  // ---- which rows those are ----

  lemma {:induction false} PairsContents(on: Condition, l: Tuple, rs: seq<Tuple>, row: Tuple)
    ensures row in Pairs(on, l, rs) <==> exists j :: 0 <= j < |rs| && row == l + rs[j] && Joins(on, row)
    ensures Pairs(on, l, rs) == [] <==> forall j :: 0 <= j < |rs| ==> !Joins(on, l + rs[j])
  {
    hide Joins;
    if rs != [] {
      var before := rs[..|rs| - 1];
      PairsContents(on, l, before, row);
      assert forall j :: 0 <= j < |before| ==> before[j] == rs[j];
    }
  }

  /** A left row without a partner. */
  predicate Alone(on: Condition, l: Tuple, rs: seq<Tuple>) { forall j :: 0 <= j < |rs| ==> !Joins(on, l + rs[j]) }

  ghost predicate MadeBy(on: Condition, f: Flavour, l: Tuple, rs: seq<Tuple>, row: Tuple) {
    (exists j :: 0 <= j < |rs| && row == l + rs[j] && Joins(on, row)) || (f.keepLeft && Alone(on, l, rs) && row == l + Nulls(f.rightWidth))
  }

  lemma FromLeftContents(on: Condition, f: Flavour, l: Tuple, rs: seq<Tuple>, row: Tuple)
    ensures row in FromLeft(on, f, l, rs) <==> MadeBy(on, f, l, rs, row)
  {
    hide Joins, Nulls, Pairs;
    PairsContents(on, l, rs, row);
  }

  lemma {:induction false} FromLeftsContents(on: Condition, f: Flavour, ls: seq<Tuple>, rs: seq<Tuple>, row: Tuple)
    ensures row in FromLefts(on, f, ls, rs) <==> exists i :: 0 <= i < |ls| && MadeBy(on, f, ls[i], rs, row)
  {
    hide MadeBy, FromLeft;
    if ls != [] {
      var before := ls[..|ls| - 1];
      FromLeftsContents(on, f, before, rs, row);
      FromLeftContents(on, f, ls[|ls| - 1], rs, row);
      assert forall i :: 0 <= i < |before| ==> before[i] == ls[i];
    }
  }

  lemma {:induction false} UnpartneredContents(on: Condition, f: Flavour, ls: seq<Tuple>, rs: seq<Tuple>, row: Tuple)
    ensures row in Unpartnered(on, f, ls, rs) <==> exists j :: 0 <= j < |rs| && !Partnered(on, ls, rs[j]) && row == Nulls(f.leftWidth) + rs[j]
  {
    hide Partnered, Nulls;
    if rs != [] {
      var before := rs[..|rs| - 1];
      UnpartneredContents(on, f, ls, before, row);
      assert forall j :: 0 <= j < |before| ==> before[j] == rs[j];
    }
  }

  /** A row is in the join exactly when it is a pair of rows the condition is true of, or a kept row
      without a partner padded with NULLs. */
  lemma JoinContents(on: Condition, f: Flavour, ls: seq<Tuple>, rs: seq<Tuple>, row: Tuple)
    ensures row in Output(on, f, ls, rs) <==>
            || (exists i :: 0 <= i < |ls| && MadeBy(on, f, ls[i], rs, row))
            || (f.keepRight && exists j :: 0 <= j < |rs| && !Partnered(on, ls, rs[j]) && row == Nulls(f.leftWidth) + rs[j])
  {
    hide MadeBy, Partnered, Nulls, FromLefts, Unpartnered;
    FromLeftsContents(on, f, ls, rs, row);
    UnpartneredContents(on, f, ls, rs, row);
  }

  /** A row continued with NULLs on the right, or preceded by them. */
  predicate PaddedRight(row: Tuple, l: Tuple, n: nat) {
    |row| == |l| + n && row[..|l|] == l && forall k :: |l| <= k < |row| ==> row[k] == Value(KindNull, 0, 0, [])
  }

  predicate PaddedLeft(row: Tuple, n: nat, r: Tuple) {
    |row| == n + |r| && row[n..] == r && forall k :: 0 <= k < n ==> row[k] == Value(KindNull, 0, 0, [])
  }

  lemma PaddedIs(row: Tuple, n: nat, s: Tuple)
    ensures PaddedRight(row, s, n) <==> row == s + Nulls(n)
    ensures PaddedLeft(row, n, s) <==> row == Nulls(n) + s
  {
    if PaddedRight(row, s, n) { assert row == row[..|s|] + row[|s|..] && row[|s|..] == Nulls(n); }
    if PaddedLeft(row, n, s) { assert row == row[..n] + row[n..] && row[..n] == Nulls(n); }
  }

  /** A pair belongs when there is no condition or it is TRUE of it. */
  ghost predicate IsPair(on: Condition, l: Tuple, rs: seq<Tuple>, row: Tuple) {
    exists j :: 0 <= j < |rs| && row == l + rs[j] && (on.None? || on.value(l + rs[j]) == True)
  }

  /** A left row is without a partner when the condition is FALSE, unknown or an error for every pair. */
  ghost predicate IsLonelyLeft(on: Condition, l: Tuple, rs: seq<Tuple>, row: Tuple, n: nat) {
    PaddedRight(row, l, n) && (on.Some? || rs == []) && forall j :: 0 <= j < |rs| ==> on.Some? ==> on.value(l + rs[j]) != True
  }

  ghost predicate IsLonelyRight(on: Condition, ls: seq<Tuple>, r: Tuple, row: Tuple, n: nat) {
    PaddedLeft(row, n, r) && (on.Some? || ls == []) && forall i :: 0 <= i < |ls| ==> on.Some? ==> on.value(ls[i] + r) != True
  }

  lemma MadeByIs(on: Condition, f: Flavour, l: Tuple, rs: seq<Tuple>, row: Tuple)
    ensures MadeBy(on, f, l, rs, row) <==> IsPair(on, l, rs, row) || (f.keepLeft && IsLonelyLeft(on, l, rs, row, f.rightWidth))
  {
    hide Nulls, PaddedRight;
    PaddedIs(row, f.rightWidth, l);
    if on.None? && rs != [] { assert Joins(on, l + rs[0]); }
    if j :| 0 <= j < |rs| && row == l + rs[j] && Joins(on, row) { assert row == l + rs[j]; }
  }

  lemma LonelyRightIs(on: Condition, ls: seq<Tuple>, r: Tuple, row: Tuple, n: nat)
    ensures !Partnered(on, ls, r) && row == Nulls(n) + r <==> IsLonelyRight(on, ls, r, row, n)
  {
    hide Nulls, PaddedLeft;
    PaddedIs(row, n, r);
    if on.None? && ls != [] { assert Joins(on, ls[0] + r); }
  }

  /** Which rows a join returns, in terms of its condition and its inputs alone. */
  lemma JoinRows(on: Condition, f: Flavour, ls: seq<Tuple>, rs: seq<Tuple>, row: Tuple)
    ensures row in Output(on, f, ls, rs) <==>
            || (exists i :: 0 <= i < |ls| && (IsPair(on, ls[i], rs, row) || (f.keepLeft && IsLonelyLeft(on, ls[i], rs, row, f.rightWidth))))
            || (f.keepRight && exists j :: 0 <= j < |rs| && IsLonelyRight(on, ls, rs[j], row, f.leftWidth))
  {
    hide MadeBy, IsPair, IsLonelyLeft, IsLonelyRight, Output, Partnered, Nulls;
    JoinContents(on, f, ls, rs, row);
    forall i | 0 <= i < |ls| { MadeByIs(on, f, ls[i], rs, row); }
    forall j | 0 <= j < |rs| { LonelyRightIs(on, ls, rs[j], row, f.leftWidth); }
  }

  // ---- how often ----

  predicate Makes(on: Condition, l: Tuple, r: Tuple, row: Tuple) { l + r == row && Joins(on, row) }

  predicate MakesLeft(on: Condition, f: Flavour, l: Tuple, rs: seq<Tuple>, row: Tuple) {
    f.keepLeft && Alone(on, l, rs) && l + Nulls(f.rightWidth) == row
  }

  predicate MakesRight(on: Condition, f: Flavour, ls: seq<Tuple>, r: Tuple, row: Tuple) {
    f.keepRight && !Partnered(on, ls, r) && Nulls(f.leftWidth) + r == row
  }

  /** The right rows, by place, that make this row with `l`. */
  ghost function Partners(on: Condition, l: Tuple, rs: seq<Tuple>, row: Tuple): set<nat> {
    set j: nat | j < |rs| && Makes(on, l, rs[j], row)
  }

  /** The pairs of left and right rows, by place, that make this row. */
  ghost function Matches(on: Condition, ls: seq<Tuple>, rs: seq<Tuple>, row: Tuple): set<(nat, nat)> {
    set i: nat, j: nat | i < |ls| && j < |rs| && Makes(on, ls[i], rs[j], row) :: (i, j)
  }

  /** The kept left rows without a partner that make it, padded, and the kept right ones. */
  ghost function LeftPadded(on: Condition, f: Flavour, ls: seq<Tuple>, rs: seq<Tuple>, row: Tuple): set<nat> {
    set i: nat | i < |ls| && MakesLeft(on, f, ls[i], rs, row)
  }

  ghost function RightPadded(on: Condition, f: Flavour, ls: seq<Tuple>, rs: seq<Tuple>, row: Tuple): set<nat> {
    set j: nat | j < |rs| && MakesRight(on, f, ls, rs[j], row)
  }

  lemma OneMore<T>(s: seq<T>, x: T, y: T)
    ensures multiset(s + [x])[y] == multiset(s)[y] + (if x == y then 1 else 0)
  {}

  lemma PartnersNext(on: Condition, l: Tuple, rs: seq<Tuple>, r: Tuple, row: Tuple)
    ensures |Partners(on, l, rs + [r], row)| == |Partners(on, l, rs, row)| + (if Makes(on, l, r, row) then 1 else 0)
  {
    hide Makes;
    var here: set<nat> := if Makes(on, l, r, row) then {|rs|} else {};
    assert forall j :: 0 <= j < |rs| ==> (rs + [r])[j] == rs[j];
    assert Partners(on, l, rs + [r], row) == Partners(on, l, rs, row) + here;
  }

  lemma {:induction false} PairsCopies(on: Condition, l: Tuple, rs: seq<Tuple>, row: Tuple)
    ensures multiset(Pairs(on, l, rs))[row] == |Partners(on, l, rs, row)|
  {
    hide Joins, Partners;
    if rs == [] {
      NobodyMakes(on, l, row);
    } else {
      var before, r := rs[..|rs| - 1], rs[|rs| - 1];
      assert rs == before + [r];
      PairsCopies(on, l, before, row);
      PartnersNext(on, l, before, r, row);
      OneMore(Pairs(on, l, before), l + r, row);
    }
  }

  lemma NobodyMakes(on: Condition, l: Tuple, row: Tuple)
    ensures Partners(on, l, [], row) == {} && multiset(Pairs(on, l, []))[row] == 0
  {}

  lemma FromLeftCopies(on: Condition, f: Flavour, l: Tuple, rs: seq<Tuple>, row: Tuple)
    ensures multiset(FromLeft(on, f, l, rs))[row] == |Partners(on, l, rs, row)| + (if MakesLeft(on, f, l, rs, row) then 1 else 0)
  {
    hide Joins, Nulls, Pairs, Partners;
    PairsCopies(on, l, rs, row);
    PairsContents(on, l, rs, row);
  }

  lemma {:induction false} AtPlace(n: nat, s: set<nat>, at: set<(nat, nat)>)
    requires forall p :: p in at <==> p.0 == n && p.1 in s
    ensures |at| == |s|
  {
    if s == {} {
      assert at == {};
    } else {
      var x :| x in s;
      AtPlace(n, s - {x}, at - {(n, x)});
      assert (n, x) in at;
    }
  }

  lemma MatchesNext(on: Condition, ls: seq<Tuple>, l: Tuple, rs: seq<Tuple>, row: Tuple)
    ensures |Matches(on, ls + [l], rs, row)| == |Matches(on, ls, rs, row)| + |Partners(on, l, rs, row)|
  {
    hide Makes;
    var all := ls + [l];
    var before, after := Matches(on, ls, rs, row), Matches(on, all, rs, row);
    assert forall i :: 0 <= i < |ls| ==> all[i] == ls[i];
    assert before <= after;
    forall p ensures p in after - before <==> p.0 == |ls| && p.1 in Partners(on, l, rs, row) {}
    AtPlace(|ls|, Partners(on, l, rs, row), after - before);
  }

  lemma LeftPaddedNext(on: Condition, f: Flavour, ls: seq<Tuple>, l: Tuple, rs: seq<Tuple>, row: Tuple)
    ensures |LeftPadded(on, f, ls + [l], rs, row)| == |LeftPadded(on, f, ls, rs, row)| + (if MakesLeft(on, f, l, rs, row) then 1 else 0)
  {
    hide MakesLeft;
    var all := ls + [l];
    var here: set<nat> := if MakesLeft(on, f, l, rs, row) then {|ls|} else {};
    assert forall i :: 0 <= i < |ls| ==> all[i] == ls[i];
    assert LeftPadded(on, f, all, rs, row) == LeftPadded(on, f, ls, rs, row) + here;
  }

  lemma {:induction false} FromLeftsCopies(on: Condition, f: Flavour, ls: seq<Tuple>, rs: seq<Tuple>, row: Tuple)
    ensures multiset(FromLefts(on, f, ls, rs))[row] == |Matches(on, ls, rs, row)| + |LeftPadded(on, f, ls, rs, row)|
  {
    hide FromLeft, Matches, LeftPadded, Partners, MakesLeft;
    if ls == [] {
      NothingLeft(on, f, rs, row);
    } else {
      var before, l := ls[..|ls| - 1], ls[|ls| - 1];
      assert ls == before + [l];
      FromLeftsCopies(on, f, before, rs, row);
      FromLeftCopies(on, f, l, rs, row);
      MatchesNext(on, before, l, rs, row);
      LeftPaddedNext(on, f, before, l, rs, row);
    }
  }

  lemma NothingLeft(on: Condition, f: Flavour, rs: seq<Tuple>, row: Tuple)
    ensures Matches(on, [], rs, row) == {} && LeftPadded(on, f, [], rs, row) == {}
  {}

  lemma RightPaddedNext(on: Condition, f: Flavour, ls: seq<Tuple>, rs: seq<Tuple>, r: Tuple, row: Tuple)
    ensures |RightPadded(on, f, ls, rs + [r], row)| == |RightPadded(on, f, ls, rs, row)| + (if MakesRight(on, f, ls, r, row) then 1 else 0)
  {
    hide MakesRight;
    var all := rs + [r];
    var here: set<nat> := if MakesRight(on, f, ls, r, row) then {|rs|} else {};
    assert forall j :: 0 <= j < |rs| ==> all[j] == rs[j];
    assert RightPadded(on, f, ls, all, row) == RightPadded(on, f, ls, rs, row) + here;
  }

  lemma {:induction false} UnpartneredCopies(on: Condition, f: Flavour, ls: seq<Tuple>, rs: seq<Tuple>, row: Tuple)
    requires f.keepRight
    ensures multiset(Unpartnered(on, f, ls, rs))[row] == |RightPadded(on, f, ls, rs, row)|
  {
    hide Partnered, Nulls, RightPadded;
    if rs == [] {
      assert RightPadded(on, f, ls, [], row) == {} by { NothingRight(on, f, ls, row); }
    } else {
      var before, r := rs[..|rs| - 1], rs[|rs| - 1];
      assert rs == before + [r];
      UnpartneredCopies(on, f, ls, before, row);
      RightPaddedNext(on, f, ls, before, r, row);
      OneMore(Unpartnered(on, f, ls, before), Nulls(f.leftWidth) + r, row);
    }
  }

  lemma NothingRight(on: Condition, f: Flavour, ls: seq<Tuple>, row: Tuple)
    ensures RightPadded(on, f, ls, [], row) == {}
  {}

  /** A join returns a row once for every pair of rows that makes it, and once for every kept row without
      a partner that does when padded. */
  lemma JoinCopies(on: Condition, f: Flavour, ls: seq<Tuple>, rs: seq<Tuple>, row: Tuple)
    ensures multiset(Output(on, f, ls, rs))[row]
            == |Matches(on, ls, rs, row)| + |LeftPadded(on, f, ls, rs, row)| + |RightPadded(on, f, ls, rs, row)|
  {
    hide Matches, LeftPadded, FromLefts, Unpartnered, Partnered, Nulls;
    FromLeftsCopies(on, f, ls, rs, row);
    if f.keepRight {
      UnpartneredCopies(on, f, ls, rs, row);
    } else {
      assert RightPadded(on, f, ls, rs, row) == {};
    }
  }

  /** The condition can be evaluated for every pair of these rows. */
  ghost predicate NeverRaises(on: Condition, ls: seq<Tuple>, rs: seq<Tuple>) {
    on.Some? ==> forall l, r :: l in ls && r in rs ==> on.value(l + r) != Raises
  }

  lemma NeverRaisesYet(on: Condition, ls: seq<Tuple>, rs: seq<Tuple>)
    ensures NeverRaises(on, [], rs) && NeverRaises(on, ls, [])
  {}

  lemma NeverRaisesPair(on: Condition, l: Tuple, rs: seq<Tuple>, i: nat)
    requires i < |rs| && NeverRaises(on, [l], rs[..i]) && (on.Some? ==> on.value(l + rs[i]) != Raises)
    ensures NeverRaises(on, [l], rs[..i + 1])
  {
    assert rs[..i + 1] == rs[..i] + [rs[i]];
  }

  lemma NeverRaisesRow(on: Condition, ls: seq<Tuple>, l: Tuple, rs: seq<Tuple>)
    requires NeverRaises(on, ls, rs) && NeverRaises(on, [l], rs)
    ensures NeverRaises(on, ls + [l], rs)
  {}

  predicate Wide(rows: seq<Tuple>, n: nat) { forall i :: 0 <= i < |rows| ==> |rows[i]| == n }

  // ---- the operator ----

  class JoinOp {
    const left: Input<Tuple>
    const right: Input<Tuple>
    const on: Condition
    const f: Flavour
    var rightRows: seq<Tuple>
    var built: bool
    var matched: array<bool>
    var cur: Tuple
    var haveCur: bool
    var curFound: bool
    var j: nat
    var drain: nat
    var draining: bool
    const out: array<Value>
    /** For proofs: both inputs' rows, and the left rows that are finished. */
    ghost const leftRows: seq<Tuple>
    ghost const allRight: seq<Tuple>
    ghost var done: seq<Tuple>

    /** What has been emitted so far. */
    ghost function Emitted(): seq<Tuple>
      reads `rightRows, `cur, `haveCur, `j, `drain, `draining, `done
      requires j <= |rightRows| && drain <= |rightRows|
    {
      FromLefts(on, f, done, rightRows)
      + (if haveCur then Pairs(on, cur, rightRows[..j]) else [])
      + (if draining then Unpartnered(on, f, leftRows, rightRows[..drain]) else [])
    }

    ghost predicate Shape()
      reads this
    {
      && left != right && out.Length == f.leftWidth + f.rightWidth
      && Wide(leftRows, f.leftWidth) && Wide(allRight, f.rightWidth)
      && j <= |rightRows| && drain <= |rightRows| && matched.Length == |rightRows|
      && (built ==> rightRows == allRight)
      && (haveCur ==> |cur| == f.leftWidth)
    }

    /** Which left rows are finished, current and to come, and which right rows have had a partner. */
    ghost predicate Progress()
      reads this, left, matched
      requires Shape()
    {
      && leftRows == done + (if haveCur then [cur] else []) + left.rest
      && NeverRaises(on, done, rightRows) && (haveCur ==> NeverRaises(on, [cur], rightRows[..j]))
      && (haveCur ==> (curFound <==> Pairs(on, cur, rightRows[..j]) != []))
      && (!draining ==> drain == 0)
      && (draining ==> f.keepRight && !haveCur && left.rest == [] && done == leftRows)
      && (forall i :: 0 <= i < |rightRows| ==>
            (matched[i] <==> Partnered(on, done, rightRows[i]) || (haveCur && i < j && Joins(on, cur + rightRows[i]))))
    }

    ghost predicate Valid()
      reads this, left, right, matched
    {
      && Shape() && Progress() && (built ==> !right.fails) && (draining ==> !left.fails)
      && (!built ==> right.rest == allRight && rightRows == [] && done == [] && !haveCur && !draining)
    }

    constructor (left: Input<Tuple>, right: Input<Tuple>, on: Condition, f: Flavour)
      requires left != right && Wide(left.rest, f.leftWidth) && Wide(right.rest, f.rightWidth)
      ensures Valid() && Emitted() == [] && leftRows == left.rest && allRight == right.rest
      ensures this.left == left && this.right == right && this.on == on && this.f == f
      ensures fresh(out) && fresh(matched)
    {
      this.left, this.right, this.on, this.f := left, right, on, f;
      leftRows, allRight, done := left.rest, right.rest, [];
      rightRows, built, cur, haveCur, curFound, j, drain, draining := [], false, [], false, false, 0, 0, false;
      matched := new bool[0];
      out := new Value[f.leftWidth + f.rightWidth](_ => NULL);
    }

    /** Reads the right side into memory once. */
    method Build() returns (r: Result<(), ExecError>)
      requires Valid() && !built
      modifies this, right
      ensures r.Err? ==> r == Err(InputFailed) && right.fails && unchanged(this)
      ensures r.Ok? ==> Valid() && built && Emitted() == old(Emitted()) && fresh(matched) && left.rest == old(left.rest)
    {
      hide Joins, Pairs, Nulls, FromLeft, NeverRaises;
      var rows: seq<Tuple> := [];
      while true
        invariant unchanged(this) && unchanged(left) && rows + right.rest == allRight
        decreases |right.rest|
      {
        var row := right.Next();
        if row.Err? { return Err(row.error); }
        if row.value.None? { break; }
        rows := rows + [row.value.value];
      }
      rightRows := rows;
      matched := new bool[|rows|](_ => false);
      built := true;
      j, drain := 0, 0;
      NeverRaisesYet(on, [], rightRows);
      return Ok(());
    }

    /** Moves to the next left row, or starts draining if the right side is kept. */
    method TakeLeft() returns (r: Result<bool, ExecError>)
      requires Valid() && built && !haveCur && !draining
      modifies `cur, `haveCur, `curFound, `j, `draining, left
      ensures r.Err? ==> r == Err(InputFailed) && left.fails
      ensures r.Ok? ==> Valid() && Emitted() == old(Emitted()) && haveCur == r.value
      ensures r == Ok(true) ==> !draining && |left.rest| < old(|left.rest|)
      ensures r == Ok(false) ==> NeverRaises(on, leftRows, rightRows)
      ensures r == Ok(false) ==> draining == f.keepRight && done == leftRows && |left.rest| == old(|left.rest|) && !left.fails
    {
      hide FromLefts, Joins, Partnered, NeverRaises;
      var row := left.Next();
      if row.Err? { return Err(row.error); }
      if row.value.None? {
        draining := f.keepRight;
        assert rightRows[..0] == [] && done == leftRows;
        return Ok(false);
      }
      cur := row.value.value;
      haveCur, curFound, j := true, false, 0;
      assert rightRows[..0] == [] && leftRows[|done|] == cur;
      NeverRaisesYet(on, [cur], []);
      return Ok(true);
    }

    /** Tries the current left row against the next right row. */
    method TryPair() returns (r: Result<Option<Tuple>, ExecError>)
      requires Valid() && built && haveCur && j < |rightRows|
      modifies `curFound, `j, matched, out
      ensures r.Err? ==> r == Err(EvalFailed) && cur in leftRows && exists i :: 0 <= i < |allRight| && on.Some? && on.value(cur + allRight[i]) == Raises
      ensures r.Ok? ==> Valid() && haveCur && !draining && j == old(j) + 1
      ensures r.Ok? ==> Emitted() == old(Emitted()) + (match r.value case Some(row) => [row] case None => [])
      ensures r.Ok? && r.value.Some? ==> r.value.value == out[..]
    {
      hide FromLefts, Joins, Partnered, Unpartnered, Pairs, Nulls, NeverRaises;
      var i := j;
      j := j + 1;
      PairsNext(on, cur, rightRows, i);
      assert cur in leftRows by { assert leftRows[|done|] == cur; }
      var ok := Match(cur, rightRows[i]);
      if ok.Err? { return Err(ok.error); }
      NeverRaisesPair(on, cur, rightRows, i);
      if ok.value {
        curFound := true;
        matched[i] := true;
        return Ok(Some(out[..]));
      }
      return Ok(None);
    }

    /** The current left row has met every right row: it is emitted padded if it is owed. */
    method FinishLeft() returns (r: Option<Tuple>)
      requires Valid() && built && haveCur && j == |rightRows|
      modifies `haveCur, `done, out
      ensures Valid() && !haveCur
      ensures Emitted() == old(Emitted()) + (match r case Some(row) => [row] case None => [])
      ensures r.Some? ==> r.value == out[..]
    {
      hide FromLefts, Joins, Partnered, Unpartnered, Pairs, NeverRaises;
      NeverRaisesRow(on, done, cur, rightRows) by { assert rightRows[..j] == rightRows; }
      haveCur := false;
      FromLeftsNext(on, f, done, cur, rightRows);
      forall i | 0 <= i < |rightRows| { PartneredNext(on, done, cur, rightRows[i]); }
      assert rightRows[..j] == rightRows;
      done := done + [cur];
      if f.keepLeft && !curFound {
        var row := Emit(Some(cur), None);
        return Some(row);
      }
      return None;
    }

    /** The next right row that never had a partner. */
    method DrainNext() returns (r: Option<Tuple>)
      requires Valid() && built && draining
      modifies `drain, out
      ensures Valid() && Emitted() == old(Emitted()) + (match r case Some(row) => [row] case None => [])
      ensures r.None? ==> NeverRaises(on, leftRows, rightRows)
      ensures r.None? ==> drain == |rightRows| && done == leftRows && f.keepRight && !haveCur && draining
      ensures r.Some? ==> r.value == out[..]
    {
      hide FromLefts, Joins, Partnered, Unpartnered, Pairs, NeverRaises;
      while drain < |rightRows|
        invariant Valid() && draining && Emitted() == old(Emitted()) && drain <= |rightRows|
      {
        var i := drain;
        drain := drain + 1;
        UnpartneredNext(on, f, leftRows, rightRows, i);
        if !matched[i] {
          var row := Emit(None, Some(rightRows[i]));
          return Some(row);
        }
      }
      return None;
    }

    /** Emits the next joined row, and ends once everything the join returns has been emitted. The row is
        what the shared buffer then holds, and stands until the next call fills it again. */
    method Next() returns (r: Result<Option<Tuple>, ExecError>)
      requires Valid()
      modifies this, left, right, out, matched
      ensures r.Ok? ==> Valid()
      ensures r.Ok? && r.value.Some? ==> Emitted() == old(Emitted()) + [r.value.value]
      ensures r.Ok? && r.value.Some? ==> r.value.value == out[..]
      ensures r.Ok? && r.value.None? ==> Emitted() == old(Emitted()) == Output(on, f, leftRows, allRight)
      ensures r.Ok? && r.value.None? ==> !left.fails
      ensures r.Ok? && r.value.None? ==> NeverRaises(on, leftRows, allRight)
      ensures r.Ok? ==> !right.fails
      ensures r == Err(InputFailed) ==> left.fails || right.fails
      ensures r == Err(EvalFailed) ==> on.Some? && exists l, k :: l in leftRows && k in allRight && on.value(l + k) == Raises
      ensures fresh({matched} - old({matched}))
    {
      hide Progress, FromLefts, Joins, Partnered, Unpartnered, Pairs, NeverRaises;
      if !built {
        var build := Build();
        if build.Err? { return Err(build.error); }
      }
      while true
        invariant Valid() && built && Emitted() == old(Emitted()) && fresh({matched} - old({matched}))
        decreases !draining, |left.rest|, haveCur, |rightRows| - j
      {
        if draining {
          var owed := DrainNext();
          assert rightRows[..|rightRows|] == rightRows;
          return Ok(owed);
        }
        if !haveCur {
          var more := TakeLeft();
          if more.Err? { return Err(more.error); }
          if !more.value {
            if !draining { return Ok(None); }
            continue;
          }
        }
        if j < |rightRows| {
          var pair := TryPair();
          if pair.Err? || pair.value.Some? { return pair; }
          continue;
        }
        var padded := FinishLeft();
        if padded.Some? { return Ok(padded); }
      }
    }

    /** Builds the joined row in the shared buffer and evaluates the condition over it. */
    method Match(l: Tuple, r: Tuple) returns (b: Result<bool, ExecError>)
      requires out.Length == f.leftWidth + f.rightWidth && |l| == f.leftWidth && |r| == f.rightWidth
      modifies out
      ensures out[..] == l + r
      ensures b == if on.Some? && on.value(l + r) == Raises then Err(EvalFailed) else Ok(Joins(on, l + r))
    {
      CopyTo(out, 0, l);
      CopyTo(out, f.leftWidth, r);
      assert out[..] == l + r;
      if on.None? { return Ok(true); }
      var v := on.value(out[..]);
      if v == Raises { return Err(EvalFailed); }
      return Ok(v == True);
    }

    /** Fills the buffer with NULLs, then with whichever side is present. */
    method Emit(l: Option<Tuple>, r: Option<Tuple>) returns (row: Tuple)
      requires out.Length == f.leftWidth + f.rightWidth
      requires (l.Some? ==> |l.value| == f.leftWidth) && (r.Some? ==> |r.value| == f.rightWidth)
      modifies out
      ensures row == (match l case Some(x) => x case None => Nulls(f.leftWidth)) + (match r case Some(x) => x case None => Nulls(f.rightWidth))
      ensures row == out[..]
    {
      for i := 0 to out.Length
        invariant forall k :: 0 <= k < i ==> out[k] == NULL
      {
        out[i] := NULL;
      }
      if l.Some? { CopyTo(out, 0, l.value); }
      if r.Some? { CopyTo(out, f.leftWidth, r.value); }
      return out[..];
    }
  }

  method CopyTo(a: array<Value>, at: nat, s: Tuple)
    requires at + |s| <= a.Length
    modifies a
    ensures a[..] == old(a[..at]) + s + old(a[at + |s|..])
  {
    for i := 0 to |s|
      invariant forall k :: 0 <= k < i ==> a[at + k] == s[k]
      invariant forall k :: 0 <= k < a.Length && !(at <= k < at + i) ==> a[k] == old(a[k])
    {
      a[at + i] := s[i];
    }
  }
}
