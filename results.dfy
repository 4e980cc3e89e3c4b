/** Failure-carrying return values used in place of Java's Optional and exceptions. */
module Results {

  /** java.util.Optional: empty or holding a value. */
  datatype Option<+T> = None | Some(value: T)

  /** A call that either returns a value or throws. */
  datatype Result<+T, +E> = Success(value: T) | Failure(error: E)

  /** A void call that either completes or throws. */
  datatype Outcome<+E> = Pass | Fail(error: E)
}

/** The exceptions the integrity layer raises, translates or lets through. */
module Exceptions {

  datatype LibraryException =
    /** Raised by a before-save hook: the save is vetoed. */
    | IllegalSaveOperation(message: string)
    /** Raised by a before-delete hook: the delete is vetoed. */
    | IllegalDeleteOperation(message: string)
    /** Raised by the store when a delete finds no document with the given id. */
    | EmptyResultDataAccess
    /** Raised by a single-result query when more than one document matches. */
    | IncorrectResultSizeDataAccess
    /** The single domain error the services throw. */
    | DataOperation(message: string)

  /** Indexing past the end of an array. */
  datatype ArrayIndexOutOfBounds = ArrayIndexOutOfBounds(index: nat, length: nat)
}
