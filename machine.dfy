/** The fixed-width integer types of the Rust code, as bounds on Dafny's unbounded
    integers. Arithmetic that would leave a range panics in a debug build; the model
    turns each such place into a precondition (or an error result) of its own. */
module Machine {

  const I16_MIN: int := -0x8000
  const I16_MAX: int := 0x7FFF
  const I32_MIN: int := -0x8000_0000
  const I32_MAX: int := 0x7FFF_FFFF
  const USIZE_MAX: int := 0xFFFF_FFFF_FFFF_FFFF

  /** Rust's `i16`. */
  type i16 = x: int | I16_MIN <= x <= I16_MAX

  predicate IsI32(x: int) {
    I32_MIN <= x <= I32_MAX
  }

  predicate IsUsize(x: int) {
    0 <= x <= USIZE_MAX
  }
}
