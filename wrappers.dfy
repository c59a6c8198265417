/** Small failure-carrying datatypes shared by the whole model. */
module Wrappers {

  /** A value that may be absent (Python's `None`). */
  datatype Option<+T> = None | Some(value: T)

  /** A computation that either produced a value or raised a Python exception. */
  datatype Result<+T, +E> = Success(value: T) | Failure(error: E)

  /** The Python exceptions the modelled code can raise. */
  datatype Exception =
    | ValueError      // int() of a string it cannot parse
    | AttributeError  // a method looked up on a value that does not have it
    | TypeError       // an unhashable value used as a dictionary key

  /**
   * One element's share of `[v for v in [...] if v is not None]`: the
   * value when it is present, nothing otherwise.
   */
  function Present<T>(o: Option<T>): seq<T>
  {
    match o
    case Some(v) => [v]
    case None => []
  }

  /**
   * The values present among `a` and `b`, in that order: the comprehension
   * above over a two-element list.
   */
  function Collect2<T>(a: Option<T>, b: Option<T>): (r: seq<T>)
    ensures |r| <= 2
    ensures forall x | x in r :: a == Some(x) || b == Some(x)
    ensures (a.Some? ==> a.value in r) && (b.Some? ==> b.value in r)
  {
    match a
    case Some(x) => (match b case Some(y) => [x, y] case None => [x])
    case None => (match b case Some(y) => [y] case None => [])
  }

  /** The same over a three-element list. */
  function Collect3<T>(a: Option<T>, b: Option<T>, c: Option<T>): (r: seq<T>)
    ensures |r| <= 3
    ensures forall x | x in r :: a == Some(x) || b == Some(x) || c == Some(x)
    ensures (a.Some? ==> a.value in r) && (b.Some? ==> b.value in r) && (c.Some? ==> c.value in r)
  {
    match a
    case Some(x) => (match b
      case Some(y) => (match c case Some(z) => [x, y, z] case None => [x, y])
      case None => (match c case Some(z) => [x, z] case None => [x]))
    case None => (match b
      case Some(y) => (match c case Some(z) => [y, z] case None => [y])
      case None => (match c case Some(z) => [z] case None => []))
  }
}
