/** Failure-compatible result types shared by every module of the model. */
module Wrappers {

  datatype Option<+T> = None | Some(value: T)

  /** How an operation of the source can go wrong: an error value that the
      caller sees (`anyhow::Error`, an `Err` status), or a panic (indexing a
      map with a missing key, `expect` on `None`), which unwinds the thread. */
  datatype Failure = Error(message: string) | Panic(message: string)

  datatype Result<+T> = Ok(value: T) | Err(failure: Failure) {
    predicate IsFailure() { Err? }

    function PropagateFailure<U>(): Result<U>
      requires Err?
    {
      Err(failure)
    }

    function Extract(): T
      requires Ok?
    {
      value
    }
  }

  /** `HashMap::get` and `BTreeMap::get`: the value under `key`, if any. */
  function Get<K, V>(m: map<K, V>, key: K): (r: Option<V>)
    ensures r.Some? <==> key in m
    ensures r.Some? ==> r.value == m[key]
  {
    if key in m then Some(m[key]) else None
  }

  /** `anyhow::Context::context`: an error is reported under the caller's
      message; a panic is not an error value and passes through unchanged. */
  function WithContext<T>(r: Result<T>, message: string): (c: Result<T>)
    ensures r.Ok? ==> c == r
    ensures r.Err? && r.failure.Error? ==> c == Err(Error(message))
    ensures r.Err? && r.failure.Panic? ==> c == r
  {
    match r
    case Ok(_) => r
    case Err(Error(_)) => Err(Error(message))
    case Err(Panic(_)) => r
  }

  /** `Option::context`: a missing value becomes an error with the message. */
  function Need<T>(o: Option<T>, message: string): (r: Result<T>)
    ensures o.Some? <==> r.Ok?
    ensures o.Some? ==> r.value == o.value
    ensures o.None? ==> r == Err(Error(message))
  {
    match o
    case Some(v) => Ok(v)
    case None => Err(Error(message))
  }
}
