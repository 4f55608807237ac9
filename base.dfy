/** Small shared vocabulary: optional values, panicking computations and the
    64-bit signed integers the interpreter computes with. */
module Base {

  datatype Option<+T> = None | Some(value: T)

  /** The outcome of a computation that may panic. `Crash` stands for every
      `unwrap`, `unreachable!`, out-of-bounds index and arithmetic overflow of
      the interpreter: the whole process stops. */
  datatype Outcome<+T> = Done(value: T) | Crash(reason: string) {
    predicate IsFailure() {
      Crash?
    }

    function PropagateFailure<U>(): Outcome<U>
      requires Crash?
    {
      Crash(reason)
    }

    function Extract(): T
      requires Done?
    {
      value
    }
  }

  const MinI64: int := -0x8000_0000_0000_0000
  const MaxI64: int := 0x7fff_ffff_ffff_ffff

  predicate InI64(x: int) {
    MinI64 <= x <= MaxI64
  }

  /** The range of Rust's `i64`. */
  type Int64 = x: int | InI64(x)
}
