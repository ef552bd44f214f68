/** Shared vocabulary: Rust's Option and Result, a call that may panic, and the
    fixed-width integer types the service stores in its tokens and tables. */
module Base {

  datatype Option<T> = None | Some(value: T)

  datatype Result<T, E> = Ok(value: T) | Err(error: E)

  /** What a Rust call does: it returns a value, or it panics (an `unwrap` on a
      failure, an arithmetic overflow check). */
  datatype Outcome<T> = Returned(value: T) | Panicked

  type byte = x: int | 0 <= x < 0x100

  const I32_MIN: int := -0x8000_0000
  const I32_MAX: int := 0x7fff_ffff
  type i32 = x: int | I32_MIN <= x <= I32_MAX

  const U128_LIMIT: int := 0x1_0000_0000_0000_0000_0000_0000_0000_0000
  type u128 = x: int | 0 <= x < U128_LIMIT

  function Min(a: int, b: int): int { if a < b then a else b }

  function Max(a: int, b: int): int { if a < b then b else a }

  /** `a + b` on `i32` as a release build computes it: two's-complement wrap-around. */
  function WrappingAdd(a: i32, b: i32): (r: i32)
    ensures I32_MIN <= a + b <= I32_MAX ==> r == a + b
    ensures a + b > I32_MAX ==> r == a + b - 0x1_0000_0000
    ensures a + b < I32_MIN ==> r == a + b + 0x1_0000_0000
  {
    if a + b > I32_MAX then a + b - 0x1_0000_0000
    else if a + b < I32_MIN then a + b + 0x1_0000_0000
    else a + b
  }
}
