/** Cell <-> pixel layout and the snapping of a landed projectile onto a
    cell. With a bubble radius of 20 the column pitch is 40, the row pitch
    20 * 1.8 = 36 and the top margin 10, all integers; the projectile's
    position is a real number, as the floating-point position is in the
    game. */
module Geometry {
  import opened HexGrid

  const COL_PITCH: int := 2 * RADIUS
  const ROW_PITCH: int := 36
  const TOP_MARGIN: int := 10
  /** The danger line: the lower edge of a bubble in the last nominal row. */
  const GAME_OVER_LINE: int := (ROWS - 1) * ROW_PITCH + RADIUS + TOP_MARGIN

  /** Horizontal centre of cell (row, col): columns are one bubble wide,
      and odd rows are shifted right by one radius, half a column. */
  function PixelX(row: int, col: int): (x: int)
    ensures col * COL_PITCH + RADIUS <= x <= (col + 1) * COL_PITCH
    ensures x == col * COL_PITCH + RADIUS <==> row % 2 == 0
    ensures row % 2 != 0 ==> x == col * COL_PITCH + 2 * RADIUS
  {
    col * COL_PITCH + RADIUS + (if row % 2 != 0 then RADIUS else 0)
  }

  /** Vertical centre of a cell of `row` under the given ceiling offset:
      inside the row's band of height ROW_PITCH, one radius below its top. */
  function PixelY(row: int, ceiling: int): (y: int)
    ensures row * ROW_PITCH + TOP_MARGIN + ceiling < y < (row + 1) * ROW_PITCH + TOP_MARGIN + ceiling
    ensures y - RADIUS == row * ROW_PITCH + TOP_MARGIN + ceiling
  {
    row * ROW_PITCH + RADIUS + TOP_MARGIN + ceiling
  }

  /** Math.round: the nearest integer, halves rounded up. */
  function Round(v: real): (k: int)
    ensures k as real - 0.5 <= v < k as real + 0.5
  {
    (v + 0.5).Floor
  }

  /** The row whose band of height ROW_PITCH, starting TOP_MARGIN below the
      ceiling, contains y. */
  function SnapRow(y: real, ceiling: int): (row: int)
    ensures (row * ROW_PITCH + TOP_MARGIN + ceiling) as real <= y
    ensures y < ((row + 1) * ROW_PITCH + TOP_MARGIN + ceiling) as real
  {
    ((y - TOP_MARGIN as real - ceiling as real) / ROW_PITCH as real).Floor
  }

  /** The column whose centre on `row` is nearest to x, clamped into the
      board: inside the board x lies within one radius of the chosen
      centre (ties go right); left or right of it the edge column is chosen. */
  function SnapCol(x: real, row: int): (col: int)
    ensures 0 <= col < COLS
    ensures (PixelX(row, 0) - RADIUS) as real <= x < (PixelX(row, COLS - 1) + RADIUS) as real ==>
              (PixelX(row, col) - RADIUS) as real <= x < (PixelX(row, col) + RADIUS) as real
    ensures x < (PixelX(row, 0) - RADIUS) as real ==> col == 0
    ensures (PixelX(row, COLS - 1) + RADIUS) as real <= x ==> col == COLS - 1
  {
    var k := if row % 2 == 0 then Round((x - RADIUS as real) / COL_PITCH as real)
             else Round((x - (2 * RADIUS) as real) / COL_PITCH as real);
    if k < 0 then 0 else if k > COLS - 1 then COLS - 1 else k
  }

  /** A projectile resting exactly on the centre of a cell snaps back to that cell. */
  lemma SnapCentre(row: int, col: int, ceiling: int)
    requires 0 <= col < COLS
    ensures SnapRow(PixelY(row, ceiling) as real, ceiling) == row
    ensures SnapCol(PixelX(row, col) as real, row) == col
  {
  }

  /** The bubble's lower edge has reached the danger line, which happens
      exactly when its centre is at or below the top of the band of the
      last nominal row, ROWS - 1, under an undropped ceiling. */
  predicate PastDangerLine(y: int)
    ensures PastDangerLine(y) <==> y >= (ROWS - 1) * ROW_PITCH + TOP_MARGIN
  {
    y + RADIUS >= GAME_OVER_LINE
  }

  /** After `drops` ceiling drops a bubble resting in `row` is past the danger
      line exactly when row + drops reaches ROWS - 1. */
  lemma DangerRow(row: int, drops: int)
    ensures PastDangerLine(PixelY(row, drops * ROW_PITCH)) <==> row + drops >= ROWS - 1
  {
  }
}
