/** Option, and the three ways a Rust function returning an `Option` can end. */
module Wrappers {

  datatype Option<+T> = None | Some(value: T) {

    /** `Option::unwrap_or`: the carried value, or `default` when there is none. */
    function UnwrapOr(default: T): (r: T)
      ensures this.Some? ==> r == this.value
      ensures this.None? ==> r == default
    {
      match this
      case Some(v) => v
      case None => default
    }
  }

  /** A call of a Rust function with result type `Option<T>`: it either returns
      (`Some` or `None`), or an `unwrap` inside it fails and the thread panics. */
  datatype Outcome<+T> = Returned(result: Option<T>) | Panicked {

    /** The call returned a value. */
    predicate HasValue() {
      Returned? && result.Some?
    }
  }

  /** `o.unwrap()` as the last step of a function: a value, or a panic. */
  function Unwrap<T>(o: Option<T>): (r: Outcome<T>)
    ensures r.Panicked? <==> o.None?
    ensures r.Returned? ==> r.result == o
  {
    match o
    case Some(v) => Returned(Some(v))
    case None => Panicked
  }
}
