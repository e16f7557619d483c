/** The failure vocabulary shared by every Sequence variant: the five error
    conditions of the library, the optional value returned by the fallible
    lookups, and the result types that replace raised exceptions. */
module Wrappers {

  /** The library's error taxonomy; each member stands for one exception class. */
  datatype Error =
    | IndexOutOfRange    // an index or range argument outside the valid domain
    | EmptySequence      // GetFirst / GetLast on a sequence of length 0
    | InvalidSize        // a negative size given to a raw-array constructor
    | InvalidOperation   // an in-place mutator invoked on an immutable sequence
    | InvalidArgument    // reading the value out of an empty Option

  /** Presence or absence of a value, as returned by TryGet, TryGetFirst,
      TryGetLast and Find. */
  datatype Option<T> = None | Some(value: T) {

    predicate IsSome()
      ensures IsSome() <==> this != None
    {
      Some?
    }

    /** Exactly one of IsSome and IsNone holds. */
    predicate IsNone()
      ensures IsNone() <==> !IsSome()
    {
      None?
    }

    /** Reading the value of an empty Option fails with InvalidArgument. */
    function GetValue(): (r: Result<T>)
      ensures r.Ok? <==> IsSome()
      ensures r.Ok? ==> r.value == value
      ensures r.Err? ==> r.error == InvalidArgument
    {
      match this
      case Some(v) => Ok(v)
      case None => Err(InvalidArgument)
    }
  }

  /** A value, or the error that the operation would have raised. */
  datatype Result<T> = Ok(value: T) | Err(error: Error)

  /** The outcome of an operation that returns nothing but may fail. */
  datatype Outcome = Pass | Fail(error: Error)
}
