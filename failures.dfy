/** The two error conditions the containers report: an access to an empty
    container (`check_nonempty`) and an index outside the live range
    (`out_of_range`). `Deque` throws them; `LockFreeDeque` and
    `LockfreeQueue` detect them and return early. */
module Failures {

  datatype Failure =
    | EmptyDeque
    | OutOfRange(value: nat, bound: nat)

  /** The value of an accessor that may fail. */
  datatype Result<T> = Ok(value: T) | Err(error: Failure)

  /** The outcome of a mutator that may fail before changing anything. */
  datatype Outcome = Done | Failed(error: Failure)
}
