/** Failure-compatible Option and Result, used for lookups that may miss and
    operations whose failure the name pool treats as fatal. */
module Wrappers {

  datatype Option<+T> = None | Some(value: T) {

    /** The carried value, or `default` when there is none. */
    function GetOr(default: T): T {
      match this
      case Some(v) => v
      case None => default
    }
  }

  datatype Result<+R, +E> = Success(value: R) | Failure(error: E) {

    predicate IsFailure() {
      Failure?
    }

    function PropagateFailure<U>(): Result<U, E>
      requires Failure?
    {
      Failure(error)
    }

    function Extract(): R
      requires Success?
    {
      value
    }
  }

  /** Conditions under which the pool stops the process (a failing `check` or a fatal error). */
  datatype Fatal =
    | BlockSpaceExhausted   // the entry allocator ran past FNameMaxBlocks blocks
    | AllocationTooLarge    // an entry does not fit in one block
    | UnusedSlotValue       // a claimed slot word would read as "unused"
    | MalformedBatch        // a batch buffer that the loader's checks reject
}
