/** Failure-carrying values shared by every other module: Rust's `Option`,
    `Result`, and the way a call can end in a panic instead of returning. */
module Outcomes {

  datatype Option<+T> = None | Some(value: T)

  datatype Result<+T, +E> = Ok(value: T) | Err(error: E)

  /** The panics the modelled code can raise. */
  datatype Fault =
    | IndexOutOfBounds      // `slice[i]` or `slice[i..]` past the end
    | SplitOutOfBounds      // `split_at_mut(mid)` with `mid > len`
    | UnwrapFailed          // `u16::try_from(n).unwrap()` with `n > 65535`
    | BufferUnderflow       // `Buf::get_u16_le` with fewer than 2 bytes left
    | AssertionFailed       // `assert_eq!` whose sides differ

  /** How a Rust call ends: it returns a value or it panics. */
  datatype Completion<+T> = Returned(value: T) | Panicked(fault: Fault)
}
