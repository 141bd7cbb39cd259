/** Shared vocabulary: optional values, results, and the fixed machine widths the
    source relies on.  Counters are unbounded `nat`s in the model; every place where
    the source can overflow compares against one of these bounds explicitly. */
module Prelude {

  datatype Option<+T> = None | Some(value: T)

  datatype Result<+T, +E> = Success(value: T) | Failure(error: E) {
    predicate IsFailure() {
      Failure?
    }

    function PropagateFailure<U>(): Result<U, E>
      requires Failure?
    {
      Failure(error)
    }

    function Extract(): T
      requires Success?
    {
      value
    }
  }

  const U16_MAX: nat := 0xFFFF
  const U64_MAX: nat := 0xFFFF_FFFF_FFFF_FFFF
  const U128_MAX: nat := 0xFFFF_FFFF_FFFF_FFFF_FFFF_FFFF_FFFF_FFFF
  const I32_MAX: int := 0x7FFF_FFFF
  const I32_MIN: int := -0x8000_0000
  const I128_MAX: int := 0x7FFF_FFFF_FFFF_FFFF_FFFF_FFFF_FFFF_FFFF
  const I128_MIN: int := -0x8000_0000_0000_0000_0000_0000_0000_0000

  type u16 = x: int | 0 <= x <= U16_MAX
  type u64 = x: int | 0 <= x <= U64_MAX
  type u128 = x: int | 0 <= x <= U128_MAX
  type i128 = x: int | I128_MIN <= x <= I128_MAX
}
