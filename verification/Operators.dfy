/** What an operator pulls its rows from. */
module Operators {
  import opened Values

  type Tuple = seq<Value>

  /** A column of a row, NULL past its end. */
  function Col(row: Tuple, i: nat): (v: Value)
    ensures v == (row + [NULL])[if i < |row| then i else |row|]
  {
    if i < |row| then row[i] else NULL
  }

  /** What a condition says of a row: true, not true (false and unknown alike), or an error. */
  datatype Truth = True | NotTrue | Raises

  datatype ExecError = InputFailed | EvalFailed

  /** An input operator: it produces its rows and then ends, or fails. */
  class Input<R> {
    var rest: seq<R>
    const fails: bool

    constructor (rows: seq<R>, fails: bool)
      ensures rest == rows && this.fails == fails
    {
      rest, this.fails := rows, fails;
    }

    method Next() returns (r: Result<Option<R>, ExecError>)
      modifies this
      ensures r == if old(rest) != [] then Ok(Some(old(rest)[0])) else if fails then Err(InputFailed) else Ok(None)
      ensures rest == if old(rest) != [] then old(rest)[1..] else []
    {
      if rest == [] { return if fails then Err(InputFailed) else Ok(None); }
      var row := rest[0];
      rest := rest[1..];
      return Ok(Some(row));
    }
  }
}
