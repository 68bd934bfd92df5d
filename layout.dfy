/**
 * Horizontal placement in the route drawing: the x coordinate of an arrow
 * leaving a biome in a given column, and of a biome in a row of a given size.
 */
module Layout {
  import opened Wrappers

  /**
   * `calcXForArrow`: columns are counted from 1 and rows hold at most four;
   * any other combination yields `undefined`, modelled as `None`.
   */
  function CalcXForArrow(column: int, columns: int): (r: Option<int>)
    ensures r.Some? <==> 1 <= column <= columns <= 4
  {
    if columns == 1 && column == 1 then Some(480)
    else if columns == 2 && column == 1 then Some(300)
    else if columns == 2 && column == 2 then Some(650)
    else if columns == 3 && column == 1 then Some(80)
    else if columns == 3 && column == 2 then Some(480)
    else if columns == 3 && column == 3 then Some(760)
    else if columns == 4 && column == 1 then Some(100)
    else if columns == 4 && column == 2 then Some(350)
    else if columns == 4 && column == 3 then Some(600)
    else if columns == 4 && column == 4 then Some(850)
    else None
  }

  /** Within a row, arrows further right start further right. */
  lemma ArrowsIncreaseWithColumn(column: int, columns: int)
    requires 1 <= column < columns <= 4
    ensures CalcXForArrow(column, columns).value < CalcXForArrow(column + 1, columns).value
  {
  }

  /** Every arrow starts inside the band from 80 to 850. */
  lemma ArrowsWithinDrawing(column: int, columns: int)
    requires 1 <= column <= columns <= 4
    ensures 80 <= CalcXForArrow(column, columns).value <= 850
  {
  }

  /** The arrow of a lone biome leaves where the middle arrow of a row of three does. */
  lemma LoneArrowIsMiddleArrow()
    ensures CalcXForArrow(1, 1) == CalcXForArrow(2, 3)
  {
  }

  /** The error every unsupported placement throws. */
  const LayoutError := "bla"

  /**
   * `calcXForBiome`: positions are counted from 0; a row of one ignores the
   * position; rows of two to four accept positions below the row size; any
   * other case throws.
   */
  function CalcXForBiome(index: int, rowSize: int): (r: Result<int, string>)
    ensures r.Success? <==> rowSize == 1 || (2 <= rowSize <= 4 && 0 <= index < rowSize)
    ensures rowSize == 1 ==> r == Success(380)
    ensures r.Failure? ==> r.error == LayoutError
  {
    if rowSize == 1 then Success(380)
    else if rowSize == 2 then
      if index == 0 then Success(205) else if index == 1 then Success(555) else Failure(LayoutError)
    else if rowSize == 3 then
      if index == 0 then Success(30) else if index == 1 then Success(380)
      else if index == 2 then Success(730) else Failure(LayoutError)
    else if rowSize == 4 then
      if index == 0 then Success(0) else if index == 1 then Success(250)
      else if index == 2 then Success(500) else if index == 3 then Success(750) else Failure(LayoutError)
    else Failure(LayoutError)
  }

  /** The gap between neighbours in a row: 350 in rows of two and three, 250 in rows of four. */
  function Spacing(rowSize: int): int
  {
    if rowSize == 4 then 250 else 350
  }

  /** Biomes of a row are evenly spaced, left to right in the order of their positions. */
  lemma BiomesEvenlySpaced(index: int, rowSize: int)
    requires 2 <= rowSize <= 4 && 0 <= index < rowSize - 1
    ensures CalcXForBiome(index + 1, rowSize).value == CalcXForBiome(index, rowSize).value + Spacing(rowSize)
  {
  }

  /** Rows of one to three biomes are centred on 380; a row of four is centred on 375. */
  lemma RowsCentred(rowSize: int)
    requires 1 <= rowSize <= 4
    ensures var first, last := CalcXForBiome(0, rowSize).value, CalcXForBiome(rowSize - 1, rowSize).value;
      first + last == if rowSize == 4 then 750 else 760
  {
  }
}
