/** Shared vocabulary of the energy transfer API: the two-phase action flag,
    Java's 32-bit `int`, the exceptions a handler call can end in, and the
    small integer helpers (`Math.min`, `Math.max`, `Mth.clamp`) the buffers use. */
module Transfer {

  const INT32_MIN: int := -0x8000_0000
  const INT32_MAX: int := 0x7FFF_FFFF

  /** `EnergyHandlerUtil.MAX_VALUE`: the near-maximum `int` (2E9) the
      interface's range annotations use as their upper bound. */
  const MAX_VALUE: int := 2_000_000_000

  /** A Java `int`. */
  type Int32 = x: int | INT32_MIN <= x <= INT32_MAX

  /** `TransferAction`: SIMULATE computes a result, EXECUTE computes it and commits it. */
  datatype Action = Simulate | Execute {
    predicate IsSimulating() { Simulate? }
    predicate IsExecuting() { Execute? }
  }

  /** Why a constructor threw `IllegalArgumentException`. */
  datatype Reason =
    | SizeNotPositive
    | EnergyArrayTooLong
    | NegativeCapacity
    | NegativeInsertionRate
    | NegativeExtractionRate

  /** The exceptions the handlers throw. */
  datatype Error =
    | IllegalArgument(reason: Reason)   // IllegalArgumentException from a constructor check
    | IndexOutOfBounds                  // Objects.checkIndex, or an array read past its end
    | NegativeArraySize                 // `new int[n]` with n < 0

  /** A call that either returns a value or throws. */
  datatype Result<+T> = Ok(value: T) | Err(error: Error) {
    predicate IsFailure() { Err? }

    function PropagateFailure<U>(): Result<U>
      requires Err?
    {
      Err(error)
    }

    function Extract(): T
      requires Ok?
    {
      value
    }
  }

  /** A value that may be absent, such as a data component an item stack does not carry. */
  datatype Option<+T> = None | Some(value: T) {
    function GetOr(default: T): T {
      match this
      case Some(v) => v
      case None => default
    }
  }

  /** What an insert or extract reports: the amount moved (or that would have
      moved, when simulated) and the handler state afterwards. */
  datatype Moved<+S> = Moved(amount: Int32, state: S)

  function Min(a: int, b: int): int {
    if a <= b then a else b
  }

  function Max(a: int, b: int): int {
    if a >= b then a else b
  }

  /** `Mth.clamp(v, lo, hi)`, taken as `min(max(v, lo), hi)` for `lo <= hi`. */
  function Clamp(v: int, lo: int, hi: int): (r: int)
    requires lo <= hi
    ensures lo <= r <= hi
    ensures lo <= v <= hi ==> r == v
    ensures v < lo ==> r == lo
    ensures hi < v ==> r == hi
  {
    Min(Max(v, lo), hi)
  }

  /** `Objects.checkIndex(index, size)` succeeds exactly for these indices. */
  predicate InRange(index: int, size: int) {
    0 <= index < size
  }

  /** Two's-complement wrap-around of a Java `int` addition. */
  function Wrap32(x: int): (r: Int32)
    ensures (r - x) % 0x1_0000_0000 == 0
    ensures INT32_MIN <= x <= INT32_MAX ==> r == x
  {
    (x - INT32_MIN) % 0x1_0000_0000 + INT32_MIN
  }
}
