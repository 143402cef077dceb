module Wrappers {

  datatype Option<+T> = None | Some(value: T)

  /** The result of code that may be refused, or that may step outside what the language or its
      library defines: an uncaught exception, or an index or prefix beyond the end of a view. */
  datatype Outcome<+T> = Ok(value: T) | Err | Fault {
    predicate IsFailure() {
      !Ok?
    }

    function PropagateFailure<U>(): Outcome<U>
      requires !Ok?
    {
      if Err? then Err else Fault
    }

    function Extract(): T
      requires Ok?
    {
      value
    }
  }
}
