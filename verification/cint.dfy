/**
  The C++ `int` the grid stores its dimensions and tiles in: a signed 32-bit
  integer. Dafny's `int` is unbounded, so the range is written out here and
  every arithmetic step whose overflow would be undefined behaviour in C++
  is guarded by `Representable`.
 */
module CInt {

  const Min: int := -0x8000_0000
  const Max: int := 0x7fff_ffff

  /** True iff `x` is a value a C++ `int` can hold. */
  predicate Representable(x: int) {
    Min <= x <= Max
  }

  type int32 = x: int | Representable(x)

  /** Multiplying by a non-negative factor preserves `<=`. */
  lemma MulMonotone(a: int, b: int, c: int)
    requires a <= b && 0 <= c
    ensures a * c <= b * c
  {
  }
}
