/**
 * The value stored in every slot of the landscape: a fixed land level, a
 * standing-water level and a "water is flowing over me" flag.
 */
module Cells {

  /** The source's `Level`, an unsigned 8-bit integer. */
  type Level = x: int | 0 <= x <= 255

  const MaxLevel: Level := 255

  datatype LandCell = LandCell(landLevel: Level, waterLevel: Level, hasWaterFlowing: bool)

  /**
   * `total_level` is a plain 8-bit addition with no saturation, so it is only
   * defined when land plus water stays within a `Level`.
   */
  predicate Fits(c: LandCell) {
    c.landLevel + c.waterLevel <= MaxLevel
  }

  predicate AllFit(cells: seq<LandCell>) {
    forall i :: 0 <= i < |cells| ==> Fits(cells[i])
  }

  predicate IsWet(c: LandCell) {
    c.waterLevel > 0
  }

  /** Height of the cell's surface: land plus standing water. */
  function TotalLevel(c: LandCell): (r: Level)
    requires Fits(c)
    ensures c.landLevel <= r && c.waterLevel <= r
    ensures r > c.landLevel <==> IsWet(c)
  {
    c.waterLevel + c.landLevel
  }
}
