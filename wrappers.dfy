/** Value wrappers shared by the model: a nullable value, an optional
    (possibly undefined) property, and the outcome of an operation that may
    throw. */
module Wrappers {

  /** A value that may be `null`. */
  datatype Option<+T> = None | Some(value: T)

  /** A property that may be left out of an object literal (`undefined`),
      as opposed to one that is present, possibly holding `null`. */
  datatype Optional<+T> = Undefined | Defined(value: T)

  /** The outcome of an operation that either returns a value or throws an
      `Error`. */
  datatype Result<+T, +E> = Ok(value: T) | Err(error: E)

  /** The outcome of a check that either passes or throws an `Error`. */
  datatype Outcome<+E> = Pass | Fail(error: E)

  /** `value ?? null` for a property of type `T | null` that may be undefined. */
  function OrNull<T>(o: Optional<Option<T>>): (r: Option<T>)
    ensures o.Undefined? ==> r.None?
    ensures o.Defined? ==> r == o.value
  {
    match o
    case Undefined => None
    case Defined(v) => v
  }
}
