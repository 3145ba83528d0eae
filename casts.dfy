/** The `TryAsU32able` and `TryAsI32able` implementations for `usize`
    (src/lib.rs:822-829, 884-891): checked conversions between a 64-bit
    `usize` and the 32-bit integer a `TryAsU32` / `TryAsI32` field stores. */
module Casts {
  import opened Types

  /** `u32(usize)`: fails with `Overflow` above `u32::MAX`. */
  function ToU32(n: int): (r: Result<int>)
    requires 0 <= n <= USIZE_MAX
    ensures r.Ok? <==> n <= U32_MAX
    ensures r.Err? ==> r.error == Overflow
    ensures r.Ok? ==> r.value == n
  {
    if n > U32_MAX then Err(Overflow) else Ok(n)
  }

  /** `usize(u32)`: on a 64-bit target every `u32` is a `usize`, so this
      cannot fail. */
  function FromU32(u: int): (n: int)
    requires 0 <= u <= U32_MAX
    ensures 0 <= n <= USIZE_MAX
  {
    u
  }

  /** `i32(usize)`: fails with `Overflow` above `i32::MAX`. */
  function ToI32(n: int): (r: Result<int>)
    requires 0 <= n <= USIZE_MAX
    ensures r.Ok? <==> n <= I32_MAX
    ensures r.Err? ==> r.error == Overflow
    ensures r.Ok? ==> r.value == n
  {
    if n > I32_MAX then Err(Overflow) else Ok(n)
  }

  /** `usize(i32)`: fails with `Underflow` on a negative value. */
  function FromI32(i: int): (r: Result<int>)
    requires I32_MIN <= i <= I32_MAX
    ensures r.Ok? <==> 0 <= i
    ensures r.Err? ==> r.error == Underflow
    ensures r.Ok? ==> 0 <= r.value <= USIZE_MAX && r.value == i
  {
    if i < 0 then Err(Underflow) else Ok(i)
  }

  /** A `usize` that fits a `u32` field reads back unchanged. */
  lemma U32RoundTrip(n: int)
    requires 0 <= n <= USIZE_MAX && ToU32(n).Ok?
    ensures FromU32(ToU32(n).value) == n
  {
  }

  /** Every stored `u32` is written back as the same `u32`. */
  lemma U32Restores(u: int)
    requires 0 <= u <= U32_MAX
    ensures ToU32(FromU32(u)) == Ok(u)
  {
  }

  /** A `usize` that fits an `i32` field reads back unchanged. */
  lemma I32RoundTrip(n: int)
    requires 0 <= n <= USIZE_MAX && ToI32(n).Ok?
    ensures I32_MIN <= ToI32(n).value && FromI32(ToI32(n).value) == Ok(n)
  {
  }

  /** Every stored non-negative `i32` is written back as the same `i32`. */
  lemma I32Restores(i: int)
    requires I32_MIN <= i <= I32_MAX && FromI32(i).Ok?
    ensures ToI32(FromI32(i).value) == Ok(i)
  {
  }
}
