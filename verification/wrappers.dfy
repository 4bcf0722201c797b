/**
 * Option and Result types shared by every module. `Error` names the kind of
 * Python exception the modelled code raises on a failure path, so a contract
 * can say not only that an operation fails but how.
 */
module Wrappers {

  datatype Option<+T> = None | Some(value: T)

  /** Exception kinds raised by the modelled code. `NonFinite` marks the paths
      where numpy would silently produce a NaN or an infinity instead of
      raising; the model stops there rather than carry a non-real value. */
  datatype Error =
    | ValueError
    | KeyError
    | IndexError
    | TypeError
    | AttributeError
    | RuntimeError
    | ZeroDivisionError
    | OverflowError
    | NonFinite

  datatype Result<+T> = Ok(value: T) | Err(error: Error)
  {
    predicate IsFailure() {
      Err?
    }

    function PropagateFailure<U>(): Result<U>
      requires Err?
    {
      Err(error)
    }

    function Extract(): T
      requires Ok?
    {
      value
    }
  }

  /** `Some` values become `Ok`; a missing value becomes the given error. */
  function Need<T>(o: Option<T>, e: Error): (r: Result<T>)
    ensures r.Ok? <==> o.Some?
    ensures r.Ok? ==> r.value == o.value
    ensures r.Err? ==> r.error == e
  {
    match o
    case Some(v) => Ok(v)
    case None => Err(e)
  }

  /** Dictionary-style lookup: a missing key raises KeyError. */
  function Lookup<K, V>(m: map<K, V>, k: K): (r: Result<V>)
    ensures r.Ok? <==> k in m
    ensures r.Ok? ==> r.value == m[k]
    ensures r.Err? ==> r.error == KeyError
  {
    if k in m then Ok(m[k]) else Err(KeyError)
  }
}
