/**
 * Pointer geometry shared by both libraries: integer screen positions and the
 * rule by which a dragged visual follows the pointer.
 */
module Pointer {

  /** A point or a translation in whole pixels. */
  datatype Pos = Pos(x: int, y: int)

  /**
   * Where a visual that sat at `origin` when the button went down at `down`
   * is drawn once the pointer is at `pointer`: its origin moved by the pointer's
   * travel since the button went down.
   */
  function Follow(origin: Pos, down: Pos, pointer: Pos): Pos {
    Pos(origin.x + (pointer.x - down.x), origin.y + (pointer.y - down.y))
  }
}
