/** The configuration constants of the sandbox (src/main.rs:9-12). */
module Consts {

  /** Window width in pixels (an `i32` in the source). */
  const WIDTH: int := 1280

  /** Window height in pixels. */
  const HEIGHT: int := 900

  /** Culling margin around the window, in pixels. */
  const OFFSET: int := 1500

  /** Mass scale of a star placed by a right-button drag. */
  const STARTMASS: real := 5000.0

  /** Largest value of a Rust `i32`. */
  const I32_MAX: int := 0x7fff_ffff

  /** Smallest value of a Rust `i32`. */
  const I32_MIN: int := -0x8000_0000
}
