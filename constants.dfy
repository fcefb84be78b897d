/** The masking constants shared by every part of the engine (lib/constants.js). */
module Constants {

  /** Side of the main grid, in pixels. */
  const GRID_SIZE: nat := 8

  /** Side of the double grid, in pixels. */
  const GRID_SIZE_DOUBLE: nat := 16

  /** Mask used by the `xor` action. */
  const XOR: bv8 := 0x80

  /** Mask used by the `neg` action. */
  const NEG: bv8 := 0xff

  /** Transform table of the Win mask; no operation of this model uses it. */
  const WIN_XFORM: seq<nat> := [12, 8, 6, 15, 9, 13, 6, 11, 8, 9, 14]
}
