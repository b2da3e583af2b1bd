/** Python list subscripts and the exceptions the automaton can raise, as values. */
module Lists {

  /** The exceptions of the engine. An `assert` failing on a cell state is `InvalidState`;
      `IndexError` is `IndexOutOfRange`; a `KeyError` on the rule dictionary is
      `MissingRuleTable`; a modulo by a zero grid width is `ZeroDivision`. */
  datatype Error = InvalidState | IndexOutOfRange | MissingRuleTable | ZeroDivision

  datatype Option<+T> = None | Some(value: T)

  datatype Result<+T> = Ok(value: T) | Err(error: Error) {
    predicate IsFailure() { Err? }
    function PropagateFailure<U>(): Result<U> requires Err? { Err(error) }
    function Extract(): T requires Ok? { value }
  }

  /** Result of an operation that returns nothing in the source. */
  datatype Outcome = Pass | Fail(error: Error)

  /** The position a Python subscript `i` selects in a list of length `len`:
      negative subscripts count from the end, anything else outside the list
      raises `IndexError`. */
  function ListIndex(len: nat, i: int): (r: Option<nat>)
    ensures r.Some? <==> -(len as int) <= i < len
    ensures r.Some? ==> r.value < len && (r.value - i) % len == 0
  {
    if 0 <= i < len then Some(i)
    else if -(len as int) <= i < 0 then Some(len + i)
    else None
  }

  /** `s[i]` in Python. */
  function ListGet<T>(s: seq<T>, i: int): (r: Result<T>)
    ensures r.Ok? <==> -(|s| as int) <= i < |s|
    ensures r.Err? ==> r.error == IndexOutOfRange
    ensures r.Ok? ==> r.value == s[ListIndex(|s|, i).value]
  {
    match ListIndex(|s|, i)
    case None => Err(IndexOutOfRange)
    case Some(k) => Ok(s[k])
  }
}
