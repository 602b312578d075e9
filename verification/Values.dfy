/** Bytes, machine integers and the runtime representation of one column value. */
module Values {

  type byte = x: int | 0 <= x < 256
  type bytes = seq<byte>

  const TWO_63: int := 0x8000_0000_0000_0000
  const TWO_64: int := 0x1_0000_0000_0000_0000

  type uint64 = x: int | 0 <= x < 0x1_0000_0000_0000_0000
  type int64 = x: int | -0x8000_0000_0000_0000 <= x < 0x8000_0000_0000_0000

  const MIN_INT64: int64 := -0x8000_0000_0000_0000

  /** The two's complement reading of a payload word. */
  function ToSigned(n: uint64): int64 {
    if n < TWO_63 then n else n - TWO_64
  }

  /** The payload word holding a signed integer. */
  function ToWord(i: int64): uint64 {
    if i >= 0 then i else i + TWO_64
  }

  datatype Kind =
    | KindNull | KindBool | KindInt | KindFloat | KindText | KindBytea
    | KindDate | KindTime | KindTimestamp | KindTimestamptz
    | KindJSON | KindJSONB | KindNumeric

  /** A SQL value: `scale` and `n` hold the scalar payloads, `s` the string-shaped ones. */
  datatype Value = Value(k: Kind, scale: byte, n: uint64, s: bytes)

  const NULL: Value := Value(KindNull, 0, 0, [])

  function IntValue(i: int64): Value { Value(KindInt, 0, ToWord(i), []) }

  predicate IsNull(v: Value) { v.k == KindNull }

  datatype Row = Row(vals: seq<Value>)

  datatype Option<+T> = None | Some(value: T)

  datatype Result<+T, +E> = Ok(value: T) | Err(error: E)

  lemma SignedOfWord(i: int64)
    ensures ToSigned(ToWord(i)) == i
  {}

  lemma WordOfSigned(n: uint64)
    ensures ToWord(ToSigned(n)) == n
  {}
}
