/** Results shared by every module.

    A Rust call ends in one of three ways: it returns `Ok`, it returns `Err`, or it panics. The crate is
    built with overflow checks on, so a panic is a failed `unwrap`, an out-of-range slice or index, a
    division by zero, or checked arithmetic that left its machine type. Keeping `Panic` apart from `Err`
    matters: callers recover from an `Err` (the header hash falls back on it), never from a panic. */
module Outcomes {
  const U64_LIMIT: nat := 0x1_0000_0000_0000_0000

  /** The machine type `u64`; arithmetic on it is done on `nat` and checked where the source can overflow. */
  type u64 = n: nat | n < U64_LIMIT

  datatype Option<+T> = None | Some(value: T)

  datatype Outcome<+T, +E> = Ok(value: T) | Err(error: E) | Panic {
    predicate IsFailure() {
      !Ok?
    }

    function PropagateFailure<U>(): Outcome<U, E>
      requires !Ok?
    {
      match this
      case Err(e) => Err(e)
      case Panic => Panic
    }

    function Extract(): T
      requires Ok?
    {
      value
    }

    /** `map_err`: the error is replaced, a value and a panic pass through. */
    function MapErr<F>(error': F): Outcome<T, F> {
      match this
      case Ok(v) => Ok(v)
      case Err(_) => Err(error')
      case Panic => Panic
    }
  }

  /** Checked conversion of a mathematical result back into `u64`. */
  function CheckedU64<E>(n: nat): Outcome<u64, E> {
    if n < U64_LIMIT then Ok(n) else Panic
  }
}
