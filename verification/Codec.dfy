/** The byte encoding of values and of log records: one value has one encoding. */
module Codec {
  import opened Values
  import opened Digits
  import opened Decimals
  import opened Numerics
  import opened Varint
  import opened Storage
  import opened Records

  const MAX_LEN := 0x4000_0000

  // ---- length-prefixed text ----

  function EncodeText(s: bytes): bytes { Uvarint(|s|) + s }

  function DecodeText(src: bytes): Option<(bytes, bytes)> {
    match DecodeUvarint(src)
    case Some((n, rest)) => if n > MAX_LEN || |rest| < n then None else Some((rest[..n], rest[n..]))
    case None => None
  }

  lemma TextIsCanonical(src: bytes, s: bytes, rest: bytes)
    ensures DecodeText(src) == Some((s, rest)) <==> |s| <= MAX_LEN && src == EncodeText(s) + rest
  {
    if |s| <= MAX_LEN && src == EncodeText(s) + rest {
      assert src == Uvarint(|s|) + (s + rest);
      UvarintIsCanonical(src, |s|, s + rest);
    }
    if DecodeText(src) == Some((s, rest)) {
      var (n, tail) := DecodeUvarint(src).value;
      UvarintIsCanonical(src, n, tail);
      assert tail == s + rest;
      assert src == Uvarint(|s|) + (s + rest);
    }
  }

  // ---- values ----

  function KindCode(k: Kind): byte {
    match k
    case KindNull => 0
    case KindBool => 1
    case KindInt => 2
    case KindFloat => 3
    case KindText => 4
    case KindBytea => 5
    case KindDate => 6
    case KindTime => 7
    case KindTimestamp => 8
    case KindTimestamptz => 9
    case KindJSON => 10
    case KindJSONB => 11
    case KindNumeric => 12
  }

  const KINDS: seq<Kind> := [KindNull, KindBool, KindInt, KindFloat, KindText, KindBytea, KindDate, KindTime,
                             KindTimestamp, KindTimestamptz, KindJSON, KindJSONB, KindNumeric]

  lemma KindCodes(k: Kind, b: byte)
    ensures b < |KINDS| && KINDS[b] == k <==> b == KindCode(k)
  {}

  predicate IsText(k: Kind) { k == KindText || k == KindBytea || k == KindJSON || k == KindJSONB }

  function NumericBody(v: Value): bytes {
    var d := AsDecimal(v);
    Uvarint(d.scale) + EncodeText(IntText(d.unscaled))
  }

  function Body(v: Value): bytes {
    if v.k == KindNull then []
    else if IsText(v.k) then EncodeText(v.s)
    else if v.k == KindNumeric then NumericBody(v)
    else LittleEndian(v.n, 8)
  }

  function EncodeValue(v: Value): bytes { [KindCode(v.k)] + Body(v) }

  /** The values this package builds, within the bounds the decoder accepts. */
  predicate Storable(v: Value) {
    if v.k == KindNull then v == NULL
    else if IsText(v.k) then v == Value(v.k, 0, 0, v.s) && |v.s| <= MAX_LEN
    else if v.k == KindNumeric then
      ValidNumeric(v) && AsDecimal(v).scale <= MAX_LEN && |IntText(AsDecimal(v).unscaled)| <= MAX_LEN
    else v == Value(v.k, 0, v.n, [])
  }

  /** The scale, then digits that must be spelled the one way a number prints. */
  function DecodeNumeric(src: bytes): Option<(Value, bytes)> {
    match DecodeUvarint(src)
    case None => None
    case Some((scale, tail)) =>
      if scale > MAX_LEN then None
      else
        match DecodeText(tail)
        case None => None
        case Some((digits, rest)) =>
          match TextInt(digits)
          case None => None
          case Some(u) => if IntText(u) != digits then None else Some((Numeric(Decimal(u, scale)), rest))
  }

  function DecodeBody(k: Kind, src: bytes): Option<(Value, bytes)> {
    if k == KindNull then Some((NULL, src))
    else if IsText(k) then
      match DecodeText(src)
      case Some((s, rest)) => Some((Value(k, 0, 0, s), rest))
      case None => None
    else if k == KindNumeric then DecodeNumeric(src)
    else if |src| < 8 then None
    else
      FixedWrites(src[..8]);
      Widths();
      Some((Value(k, 0, FromLittleEndian(src[..8]), []), src[8..]))
  }

  /** The value as stored, before a jsonb text is brought up to date. */
  function DecodeValue(src: bytes): Option<(Value, bytes)> {
    if src == [] || src[0] >= |KINDS| then None else DecodeBody(KINDS[src[0]], src[1..])
  }

  lemma NumericWrites(v: Value, rest: bytes)
    requires Storable(v) && v.k == KindNumeric
    ensures DecodeNumeric(NumericBody(v) + rest) == Some((v, rest))
  {
    hide AsDecimal, Numeric, IntText, TextInt, DecodeUvarint, DecodeText, EncodeText;
    var d := AsDecimal(v);
    var tail := EncodeText(IntText(d.unscaled)) + rest;
    assert NumericBody(v) + rest == Uvarint(d.scale) + tail;
    UvarintIsCanonical(NumericBody(v) + rest, d.scale, tail);
    TextIsCanonical(tail, IntText(d.unscaled), rest);
    IntTextReads(d.unscaled);
  }

  lemma NumericReadsBack(src: bytes)
    requires DecodeNumeric(src).Some?
    ensures var (v, rest) := DecodeNumeric(src).value;
            Storable(v) && v.k == KindNumeric && src == NumericBody(v) + rest
  {
    hide AsDecimal, Numeric, IntText, TextInt, DecodeUvarint, DecodeText, EncodeText, ValidNumeric;
    var (v, rest) := DecodeNumeric(src).value;
    var (scale, tail) := DecodeUvarint(src).value;
    var digits := DecodeText(tail).value.0;
    var u := TextInt(digits).value;
    UvarintIsCanonical(src, scale, tail);
    TextIsCanonical(tail, digits, rest);
    NumericReads(Decimal(u, scale));
    assert src == Uvarint(scale) + (EncodeText(digits) + rest);
    KindOfNumeric(Decimal(u, scale));
  }

  lemma KindOfNumeric(d: Decimal)
    ensures Numeric(d).k == KindNumeric
  {}

  lemma BodyWrites(v: Value, rest: bytes)
    requires Storable(v)
    ensures DecodeBody(v.k, Body(v) + rest) == Some((v, rest))
  {
    hide NumericBody, DecodeNumeric, DecodeText, EncodeText, LittleEndian, FromLittleEndian, ValidNumeric, IntText, AsDecimal;
    if v.k == KindNull {
      assert Body(v) + rest == rest;
    } else if IsText(v.k) {
      TextIsCanonical(Body(v) + rest, v.s, rest);
    } else if v.k == KindNumeric {
      NumericWrites(v, rest);
    } else {
      Widths();
      FixedReads(v.n, 8);
      assert (Body(v) + rest)[..8] == Body(v) && (Body(v) + rest)[8..] == rest;
    }
  }

  lemma BodyReads(k: Kind, src: bytes)
    requires DecodeBody(k, src).Some?
    ensures var (v, rest) := DecodeBody(k, src).value; v.k == k && Storable(v) && src == Body(v) + rest
  {
    hide NumericBody, DecodeNumeric, DecodeText, EncodeText, LittleEndian, FromLittleEndian, ValidNumeric, IntText, AsDecimal;
    var (v, rest) := DecodeBody(k, src).value;
    if k == KindNull {
      assert Body(v) + rest == rest;
    } else if IsText(k) {
      TextIsCanonical(src, v.s, rest);
    } else if k == KindNumeric {
      NumericReadsBack(src);
    } else {
      FixedWrites(src[..8]);
      assert src == src[..8] + src[8..];
    }
  }

  /** A value has exactly one encoding, and nothing else decodes to it. */
  lemma ValueIsCanonical(src: bytes, v: Value, rest: bytes)
    ensures DecodeValue(src) == Some((v, rest)) <==> Storable(v) && src == EncodeValue(v) + rest
  {
    hide DecodeBody, Body, Storable, KINDS, KindCode;
    if Storable(v) && src == EncodeValue(v) + rest {
      KindCodes(v.k, KindCode(v.k));
      BodyWrites(v, rest);
      assert src[1..] == Body(v) + rest;
    }
    if DecodeValue(src) == Some((v, rest)) {
      BodyReads(KINDS[src[0]], src[1..]);
      KindCodes(v.k, src[0]);
      assert src == [src[0]] + src[1..];
    }
  }

  // ---- jsonb ----

  /** A jsonb text is re-canonicalised when read; `canon` is the current form, if the text parses. */
  function Upgrade(canon: bytes -> Option<bytes>, v: Value): Value {
    if v.k != KindJSONB then v
    else match canon(v.s) case Some(s) => Value(KindJSONB, 0, 0, s) case None => v
  }

  method ReadValue(canon: bytes -> Option<bytes>, src: bytes) returns (r: Option<(Value, bytes)>)
    ensures r == match DecodeValue(src) case Some((v, rest)) => Some((Upgrade(canon, v), rest)) case None => None
  {
    if src == [] { return None; }
    if src[0] >= |KINDS| { return None; }
    var k := KINDS[src[0]];
    var body := src[1..];
    if k == KindNull { return Some((NULL, body)); }
    if k == KindNumeric { return DecodeNumeric(body); }
    if IsText(k) {
      var text := DecodeText(body);
      if text.None? { return None; }
      if k == KindJSONB {
        var now := canon(text.value.0);
        if now.Some? { return Some((Value(KindJSONB, 0, 0, now.value), text.value.1)); }
      }
      return Some((Value(k, 0, 0, text.value.0), text.value.1));
    }
    if |body| < 8 { return None; }
    FixedWrites(body[..8]);
    Widths();
    return Some((Value(k, 0, FromLittleEndian(body[..8]), []), body[8..]));
  }

  // ---- rows and records ----

  function EncodeValues(vals: seq<Value>): bytes {
    if vals == [] then [] else EncodeValue(vals[0]) + EncodeValues(vals[1..])
  }

  function DecodeValues(src: bytes, n: nat): Option<(seq<Value>, bytes)>
    decreases n
  {
    if n == 0 then Some(([], src))
    else
      match DecodeValue(src)
      case None => None
      case Some((v, tail)) =>
        match DecodeValues(tail, n - 1)
        case None => None
        case Some((vs, rest)) => Some(([v] + vs, rest))
  }

  predicate AllStorable(vals: seq<Value>) { forall i :: 0 <= i < |vals| ==> Storable(vals[i]) }

  lemma {:induction false} ValuesWrite(vals: seq<Value>, rest: bytes)
    requires AllStorable(vals)
    ensures DecodeValues(EncodeValues(vals) + rest, |vals|) == Some((vals, rest))
  {
    hide DecodeValue, EncodeValue, Storable;
    if vals == [] {
      assert EncodeValues(vals) + rest == rest;
    } else {
      var tail := EncodeValues(vals[1..]) + rest;
      assert EncodeValues(vals) + rest == EncodeValue(vals[0]) + tail;
      ValueIsCanonical(EncodeValues(vals) + rest, vals[0], tail);
      ValuesWrite(vals[1..], rest);
      assert [vals[0]] + vals[1..] == vals;
    }
  }

  lemma {:induction false} ValuesRead(src: bytes, n: nat)
    requires DecodeValues(src, n).Some?
    ensures var (vals, rest) := DecodeValues(src, n).value;
            n == |vals| && AllStorable(vals) && src == EncodeValues(vals) + rest
    decreases n
  {
    hide DecodeValue, EncodeValue, Storable;
    if n == 0 {
      assert EncodeValues([]) + src == src;
    } else {
      var (v, tail) := DecodeValue(src).value;
      var (vs, rest) := DecodeValues(tail, n - 1).value;
      ValueIsCanonical(src, v, tail);
      ValuesRead(tail, n - 1);
      assert ([v] + vs)[1..] == vs;
      assert src == EncodeValue(v) + (EncodeValues(vs) + rest) == EncodeValues([v] + vs) + rest;
    }
  }

  lemma ValuesAreCanonical(src: bytes, vals: seq<Value>, rest: bytes, n: nat)
    ensures DecodeValues(src, n) == Some((vals, rest)) <==>
            n == |vals| && AllStorable(vals) && src == EncodeValues(vals) + rest
  {
    hide DecodeValues, AllStorable, EncodeValues;
    if AllStorable(vals) { ValuesWrite(vals, rest); }
    if DecodeValues(src, n).Some? { ValuesRead(src, n); }
  }

  function RecordBody(r: Record): bytes {
    match r
    case Ddl(sql) => EncodeText(sql)
    case Insert(t, id, row) => EncodeText(t.text) + (Uvarint(id) + (Uvarint(|row.vals|) + EncodeValues(row.vals)))
    case Delete(t, id) => EncodeText(t.text) + Uvarint(id)
    case Missing(t, column, v) => EncodeText(t.text) + (Uvarint(column) + EncodeValue(v))
  }

  function RecordCode(r: Record): byte {
    match r
    case Ddl(_) => 0
    case Insert(_, _, _) => 1
    case Delete(_, _) => 2
    case Missing(_, _, _) => 3
  }

  function EncodeRecord(r: Record): bytes { [RecordCode(r)] + RecordBody(r) }

  /** The records within the decoder's bounds. */
  predicate InBounds(r: Record) {
    match r
    case Ddl(sql) => |sql| <= MAX_LEN
    case Insert(t, id, row) => |t.text| <= MAX_LEN && id < TWO_64 && |row.vals| <= MAX_LEN && AllStorable(row.vals)
    case Delete(t, id) => |t.text| <= MAX_LEN && id < TWO_64
    case Missing(t, column, v) => |t.text| <= MAX_LEN && column <= MAX_LEN && Storable(v)
  }

  function DecodeInsert(t: Name, src: bytes): Option<(Record, bytes)> {
    match DecodeUvarint(src)
    case None => None
    case Some((id, tail)) =>
      match DecodeUvarint(tail)
      case None => None
      case Some((n, tail')) =>
        if n > MAX_LEN then None
        else
          match DecodeValues(tail', n)
          case None => None
          case Some((vals, rest)) => Some((Record.Insert(t, id, Row(vals)), rest))
  }

  function DecodeDelete(t: Name, src: bytes): Option<(Record, bytes)> {
    match DecodeUvarint(src)
    case None => None
    case Some((id, rest)) => Some((Record.Delete(t, id), rest))
  }

  function DecodeMissing(t: Name, src: bytes): Option<(Record, bytes)> {
    match DecodeUvarint(src)
    case None => None
    case Some((column, tail)) =>
      if column > MAX_LEN then None
      else
        match DecodeValue(tail)
        case None => None
        case Some((v, rest)) => Some((Missing(t, column, v), rest))
  }

  function DecodeAfter(code: byte, text: bytes, tail: bytes): Option<(Record, bytes)> {
    if code == 0 then Some((Ddl(text), tail))
    else if code == 1 then DecodeInsert(Name(text), tail)
    else if code == 2 then DecodeDelete(Name(text), tail)
    else DecodeMissing(Name(text), tail)
  }

  function DecodeRecord(src: bytes): Option<(Record, bytes)> {
    if src == [] || src[0] >= 4 then None
    else
      match DecodeText(src[1..])
      case None => None
      case Some((text, tail)) => DecodeAfter(src[0], text, tail)
  }

  lemma InsertIsCanonical(t: Name, src: bytes, r: Record, rest: bytes)
    ensures DecodeInsert(t, src) == Some((r, rest)) <==>
            r.Insert? && r.table == t && r.row < TWO_64 && |r.vals.vals| <= MAX_LEN && AllStorable(r.vals.vals)
            && src == Uvarint(r.row) + (Uvarint(|r.vals.vals|) + EncodeValues(r.vals.vals)) + rest
  {
    hide DecodeUvarint, DecodeValues, EncodeValues, AllStorable, Uvarint;
    if r.Insert? && r.table == t && r.row < TWO_64 && |r.vals.vals| <= MAX_LEN && AllStorable(r.vals.vals)
       && src == Uvarint(r.row) + (Uvarint(|r.vals.vals|) + EncodeValues(r.vals.vals)) + rest {
      var vals := r.vals.vals;
      var tail' := EncodeValues(vals) + rest;
      var tail := Uvarint(|vals|) + tail';
      assert src == Uvarint(r.row) + tail;
      UvarintIsCanonical(src, r.row, tail);
      UvarintIsCanonical(tail, |vals|, tail');
      ValuesAreCanonical(tail', vals, rest, |vals|);
      assert r == Record.Insert(t, r.row, Row(vals));
    }
    if DecodeInsert(t, src) == Some((r, rest)) {
      var (id, tail) := DecodeUvarint(src).value;
      var (n, tail') := DecodeUvarint(tail).value;
      UvarintIsCanonical(src, id, tail);
      UvarintIsCanonical(tail, n, tail');
      ValuesAreCanonical(tail', r.vals.vals, rest, n);
      assert src == Uvarint(id) + (Uvarint(n) + EncodeValues(r.vals.vals)) + rest;
    }
  }

  lemma DeleteIsCanonical(t: Name, src: bytes, r: Record, rest: bytes)
    ensures DecodeDelete(t, src) == Some((r, rest)) <==>
            r.Delete? && r.table == t && r.row < TWO_64 && src == Uvarint(r.row) + rest
  {
    hide DecodeUvarint, Uvarint;
    if r.Delete? { UvarintIsCanonical(src, r.row, rest); }
  }

  lemma MissingIsCanonical(t: Name, src: bytes, r: Record, rest: bytes)
    ensures DecodeMissing(t, src) == Some((r, rest)) <==>
            r.Missing? && r.table == t && r.column <= MAX_LEN && Storable(r.missing)
            && src == Uvarint(r.column) + EncodeValue(r.missing) + rest
  {
    hide DecodeUvarint, Uvarint, DecodeValue, EncodeValue, Storable;
    if r.Missing? {
      var tail := EncodeValue(r.missing) + rest;
      UvarintIsCanonical(src, r.column, tail);
      ValueIsCanonical(tail, r.missing, rest);
      assert Uvarint(r.column) + EncodeValue(r.missing) + rest == Uvarint(r.column) + tail;
    }
    if DecodeMissing(t, src) == Some((r, rest)) {
      var (column, tail) := DecodeUvarint(src).value;
      UvarintIsCanonical(src, column, tail);
      ValueIsCanonical(tail, r.missing, rest);
      assert Uvarint(column) + EncodeValue(r.missing) + rest == Uvarint(column) + (EncodeValue(r.missing) + rest);
    }
  }

  /** The text field every record begins with, and what follows it. */
  function FirstText(r: Record): bytes { if r.Ddl? then r.sql else r.table.text }

  function AfterText(r: Record): bytes {
    match r
    case Ddl(sql) => []
    case Insert(t, id, row) => Uvarint(id) + (Uvarint(|row.vals|) + EncodeValues(row.vals))
    case Delete(t, id) => Uvarint(id)
    case Missing(t, column, v) => Uvarint(column) + EncodeValue(v)
  }

  lemma RecordLayout(r: Record, rest: bytes)
    ensures EncodeRecord(r) + rest == [RecordCode(r)] + (EncodeText(FirstText(r)) + (AfterText(r) + rest))
  {
    hide EncodeText, EncodeValues, EncodeValue, Uvarint;
  }

  lemma AfterIsCanonical(code: byte, text: bytes, tail: bytes, r: Record, rest: bytes)
    requires code < 4 && |text| <= MAX_LEN
    ensures DecodeAfter(code, text, tail) == Some((r, rest)) <==>
            code == RecordCode(r) && text == FirstText(r) && InBounds(r) && tail == AfterText(r) + rest
  {
    hide DecodeInsert, DecodeDelete, DecodeMissing, EncodeValues, EncodeValue, Uvarint, AllStorable, Storable;
    InsertIsCanonical(Name(text), tail, r, rest);
    DeleteIsCanonical(Name(text), tail, r, rest);
    MissingIsCanonical(Name(text), tail, r, rest);
    if r.Ddl? { assert AfterText(r) + rest == rest; }
  }

  /** Every record has exactly one encoding, and nothing else decodes to it. */
  lemma RecordIsCanonical(src: bytes, r: Record, rest: bytes)
    ensures DecodeRecord(src) == Some((r, rest)) <==> InBounds(r) && src == EncodeRecord(r) + rest
  {
    hide DecodeInsert, DecodeDelete, DecodeMissing, DecodeText, EncodeText, AfterText, EncodeRecord, AllStorable, Storable;
    RecordLayout(r, rest);
    if InBounds(r) && src == EncodeRecord(r) + rest {
      var tail := AfterText(r) + rest;
      assert src[1..] == EncodeText(FirstText(r)) + tail;
      TextIsCanonical(src[1..], FirstText(r), tail);
      AfterIsCanonical(src[0], FirstText(r), tail, r, rest);
    }
    if DecodeRecord(src) == Some((r, rest)) {
      var (text, tail) := DecodeText(src[1..]).value;
      TextIsCanonical(src[1..], text, tail);
      AfterIsCanonical(src[0], text, tail, r, rest);
      assert src == [src[0]] + src[1..];
    }
  }

  // ---- the record reader and writer ----

  function UpgradeAll(canon: bytes -> Option<bytes>, vals: seq<Value>): (r: seq<Value>)
    ensures |r| == |vals|
  {
    seq(|vals|, i requires 0 <= i < |vals| => Upgrade(canon, vals[i]))
  }

  function UpgradeRecord(canon: bytes -> Option<bytes>, r: Record): Record {
    match r
    case Insert(t, id, row) => Record.Insert(t, id, Row(UpgradeAll(canon, row.vals)))
    case Missing(t, column, v) => Missing(t, column, Upgrade(canon, v))
    case _ => r
  }

  /** Reads `n` values, advancing a cursor. */
  method ReadValues(canon: bytes -> Option<bytes>, src: bytes, n: nat) returns (r: Option<(seq<Value>, bytes)>)
    ensures r == match DecodeValues(src, n) case Some((vs, rest)) => Some((UpgradeAll(canon, vs), rest)) case None => None
  {
    hide DecodeValue, Upgrade;
    var vals: seq<Value> := [];
    ghost var stored: seq<Value> := [];
    var cur := src;
    assert forall vs: seq<Value> :: [] + vs == vs;
    for i := 0 to n
      invariant |stored| == i && vals == UpgradeAll(canon, stored)
      invariant DecodeValues(src, n) == match DecodeValues(cur, n - i) case Some((vs, rest)) => Some((stored + vs, rest)) case None => None
    {
      var next := ReadValue(canon, cur);
      if next.None? { return None; }
      ghost var (v, tail) := DecodeValue(cur).value;
      assert forall vs: seq<Value> :: stored + ([v] + vs) == (stored + [v]) + vs;
      vals := vals + [next.value.0];
      stored := stored + [v];
      cur := next.value.1;
    }
    assert stored + [] == stored;
    return Some((vals, cur));
  }

  method ReadRecord(canon: bytes -> Option<bytes>, src: bytes) returns (r: Option<(Record, bytes)>)
    ensures r == match DecodeRecord(src) case Some((rec, rest)) => Some((UpgradeRecord(canon, rec), rest)) case None => None
  {
    hide DecodeUvarint, DecodeText, DecodeValue, DecodeValues, Upgrade;
    if src == [] { return None; }
    var kind := src[0];
    if kind >= 4 { return None; }
    var text := DecodeText(src[1..]);
    if text.None? { return None; }
    var cur := text.value.1;
    if kind == 0 { return Some((Ddl(text.value.0), cur)); }
    var number := DecodeUvarint(cur);
    if number.None? { return None; }
    cur := number.value.1;
    if kind == 2 { return Some((Record.Delete(Name(text.value.0), number.value.0), cur)); }
    if kind == 1 {
      var n := DecodeUvarint(cur);
      if n.None? || n.value.0 > MAX_LEN { return None; }
      var vals := ReadValues(canon, n.value.1, n.value.0);
      if vals.None? { return None; }
      return Some((Record.Insert(Name(text.value.0), number.value.0, Row(vals.value.0)), vals.value.1));
    }
    if number.value.0 > MAX_LEN { return None; }
    var v := ReadValue(canon, cur);
    if v.None? { return None; }
    return Some((Missing(Name(text.value.0), number.value.0, v.value.0), v.value.1));
  }

  lemma {:induction false} EncodeValuesSnoc(vals: seq<Value>, v: Value)
    ensures EncodeValues(vals + [v]) == EncodeValues(vals) + EncodeValue(v)
  {
    hide EncodeValue;
    if vals == [] {
      assert vals + [v] == [v] && [v][1..] == [];
    } else {
      assert (vals + [v])[1..] == vals[1..] + [v];
      EncodeValuesSnoc(vals[1..], v);
    }
  }

  method AppendValues(dst: bytes, vals: seq<Value>) returns (out: bytes)
    ensures out == dst + EncodeValues(vals)
  {
    hide EncodeValue;
    out := dst;
    for i := 0 to |vals|
      invariant out == dst + EncodeValues(vals[..i])
    {
      assert vals[..i + 1] == vals[..i] + [vals[i]];
      EncodeValuesSnoc(vals[..i], vals[i]);
      out := out + EncodeValue(vals[i]);
    }
    assert vals[..|vals|] == vals;
  }

  /** Extends `dst` with one record. */
  method AppendRecord(dst: bytes, r: Record) returns (out: bytes)
    ensures out == dst + EncodeRecord(r)
  {
    hide EncodeText, EncodeValue, EncodeValues, Uvarint;
    match r {
      case Ddl(sql) =>
        out := dst + [0] + EncodeText(sql);
      case Insert(t, id, row) =>
        out := dst + [1] + EncodeText(t.text);
        out := out + Uvarint(id) + Uvarint(|row.vals|);
        out := AppendValues(out, row.vals);
      case Delete(t, id) =>
        out := dst + [2] + EncodeText(t.text) + Uvarint(id);
      case Missing(t, column, v) =>
        out := dst + [3] + EncodeText(t.text) + Uvarint(column) + EncodeValue(v);
    }
  }

  // ---- the bytes themselves ----

  lemma TextBytes(s: bytes)
    requires |s| < 128
    ensures EncodeText(s) == [|s|] + s
  {}

  lemma ShortText(a: byte)
    ensures EncodeText([a]) == [1, a]
  {
    TextBytes([a]);
  }

  lemma {:induction false} NoBytes(w: nat)
    ensures LittleEndian(0, w) == seq(w, _ => 0)
  {
    if w > 0 { NoBytes(w - 1); }
  }

  lemma SmallWord(n: nat)
    requires n < 256
    ensures LittleEndian(n, 8) == [n, 0, 0, 0, 0, 0, 0, 0] && LittleEndian(n, 4) == [n, 0, 0, 0]
  {
    NoBytes(7);
    NoBytes(3);
    assert LittleEndian(n, 8) == [n % 256] + LittleEndian(n / 256, 7);
    assert LittleEndian(n, 4) == [n % 256] + LittleEndian(n / 256, 3);
  }

  /** One value of most shapes as it stands in the log: its kind, then its payload. */
  lemma WordBytes()
    ensures EncodeValue(NULL) == [0]
    ensures EncodeValue(Value(KindBool, 0, 1, [])) == [1, 1, 0, 0, 0, 0, 0, 0, 0]
    ensures EncodeValue(IntValue(7)) == [2, 7, 0, 0, 0, 0, 0, 0, 0]
  {
    hide LittleEndian;
    SmallWord(1);
    SmallWord(7);
  }

  lemma StringBytes()
    ensures EncodeValue(Value(KindText, 0, 0, [104, 105])) == [4, 2, 104, 105]
    ensures EncodeValue(Value(KindBytea, 0, 0, [104, 105])) == [5, 2, 104, 105]
  {
    hide EncodeText;
    TextBytes([104, 105]);
  }

  lemma NumericBytes()
    ensures EncodeValue(Numeric(Decimal(-15, 1))) == [12, 1, 3, 45, 49, 53]
  {
    hide EncodeText, Numeric, AsDecimal;
    var v := Numeric(Decimal(-15, 1));
    NumericReads(Decimal(-15, 1));
    assert NatText(1) == [49] && NatText(15) == [49, 53];
    assert IntText(-15) == [45, 49, 53];
    TextBytes([45, 49, 53]);
    assert v.k == KindNumeric by { KindOfNumeric(Decimal(-15, 1)); }
    assert EncodeValue(v) == [12] + NumericBody(v);
    assert Uvarint(1) == [1];
  }

  /** One record of each kind as it stands in the log: its kind, its table, and what it says. */
  lemma DdlBytes()
    ensures EncodeRecord(Ddl([120])) == [0, 1, 120]
  {
    hide EncodeText;
    ShortText(120);
  }

  lemma DeleteBytes()
    ensures EncodeRecord(Record.Delete(Name([116]), 300)) == [2, 1, 116, 0xAC, 2]
  {
    hide EncodeText, Uvarint;
    LowFirst();
    ShortText(116);
  }

  lemma MissingBytes()
    ensures EncodeRecord(Missing(Name([116]), 5, NULL)) == [3, 1, 116, 5, 0]
  {
    hide EncodeText, EncodeValue;
    WordBytes();
    ShortText(116);
    assert Uvarint(5) == [5];
  }

  lemma InsertBytes()
    ensures EncodeRecord(Record.Insert(Name([116]), 300, Row([NULL, Value(KindText, 0, 0, [104, 105])]))) == [1, 1, 116, 0xAC, 2, 2, 0, 4, 2, 104, 105]
  {
    hide EncodeText, EncodeValue, Uvarint;
    LowFirst();
    WordBytes();
    StringBytes();
    ShortText(116);
    assert Uvarint(2) == [2] by { SmallUvarint(2); }
    var h := Value(KindText, 0, 0, [104, 105]);
    assert [NULL, h][1..] == [h] && [h][1..] == [];
    assert EncodeValues([NULL, h]) == EncodeValue(NULL) + (EncodeValue(h) + EncodeValues([]));
  }

  lemma SmallUvarint(n: nat)
    requires n < 128
    ensures Uvarint(n) == [n]
  {}
}
