/** Results of operations that raise a contract error instead of returning. */
module Results {
  datatype Result<T> = Ok(value: T) | ContractError

  /** The outcome of a loop that has collected some values: those, then the rest. */
  function Prepend<T>(done: seq<T>, r: Result<seq<T>>): (r': Result<seq<T>>)
    ensures done == [] ==> r' == r
  {
    if r.Ok? then assert [] + r.value == r.value; Ok(done + r.value) else ContractError
  }

  lemma PrependOne<T>(done: seq<T>, x: T, r: Result<seq<T>>)
    ensures Prepend(done, if r.Ok? then Ok([x] + r.value) else ContractError) == Prepend(done + [x], r)
  {
    if r.Ok? { assert done + ([x] + r.value) == done + [x] + r.value; }
  }
}
