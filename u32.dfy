/** Rust's `u32` and the two behaviours of its `-` operator: a debug build
    panics on overflow, a release build wraps around modulo 2^32. */
module U32 {

  const LIMIT: int := 0x1_0000_0000

  type u32 = x: int | 0 <= x < LIMIT

  /** Why an arithmetic step panicked. */
  datatype Fault = SubtractOverflow

  /** The outcome of a computation that may panic. */
  datatype Result<T> = Ok(value: T) | Panic(fault: Fault)

  /** `a - b` in a debug build: the difference, or a panic when it would
      fall below zero. */
  function CheckedSub(a: u32, b: u32): (r: Result<u32>)
    ensures r.Ok? <==> b <= a
    ensures r.Ok? ==> r.value + b == a
    ensures r.Panic? ==> r.fault == SubtractOverflow
  {
    if b <= a then Ok(a - b) else Panic(SubtractOverflow)
  }

  /** `a - b` in a release build: the unique `u32` that, added to `b`, gives
      `a` again modulo 2^32. */
  function WrappingSub(a: u32, b: u32): (r: u32)
    ensures (r + b) % LIMIT == a
    ensures b <= a ==> r <= a
    ensures a < b ==> r >= LIMIT - b
  {
    if b <= a then a - b else a - b + LIMIT
  }

  /** Wrap-around and checked subtraction agree wherever the latter does not panic. */
  lemma WrappingAgreesWithChecked(a: u32, b: u32)
    ensures CheckedSub(a, b).Ok? ==> WrappingSub(a, b) == CheckedSub(a, b).value
  {
  }
}
