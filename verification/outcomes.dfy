/** Failure outcomes of the B+ tree library.

    The library has no recoverable errors: every failure is a panic (an
    `assert!`, an unsigned underflow or overflow, an out-of-range `Vec`
    operation). The model makes each of them a value so that the
    conditions under which they happen can be stated and proved. */
module Outcomes {

  /** The ways a call can fail to return normally. */
  datatype Fault =
    | AssertionFailed            // an `assert!` on the caller's input is false
    | SubtractOverflow           // `order - 1` on an unsigned zero
    | ZeroChunkSize              // `chunks(0)` on a slice
    | InsertionIndexOutOfBounds  // `Vec::insert` at an index past the end
    | IndexOutOfBounds           // `keys[0]` on an empty vector
    | LevelCounterOverflow       // `d += 1` on the `u32` level counter of `depth` at its maximum

  /** Either the value a call returns or the fault that stopped it. */
  datatype Result<+T> = Ok(value: T) | Err(fault: Fault)
}
