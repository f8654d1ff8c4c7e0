/**
 * The apple: a single cell the snake eats. Its position is redrawn from a
 * random column and row; the draw is an input here (col, row), restricted
 * to the ranges the game's random source produces.
 */
module Food {
  import opened Grid

  /** A random draw: a column in [0, GridWidth - 1] and a row in [0, GridHeight - 1]. */
  predicate IsDraw(col: int, row: int) {
    0 <= col < GridWidth && 0 <= row < GridHeight
  }

  /** The top-left pixel of the cell at column col and row row. */
  function CellAt(col: int, row: int): (p: Pos)
    requires IsDraw(col, row)
    ensures OnBoard(p)
  {
    (col * CellSize, row * CellSize)
  }

  /**
   * Every draw lands on the board, and every board cell can be drawn:
   * no cell, including one the snake occupies, is excluded.
   */
  lemma CellAtCoversBoard(p: Pos)
    requires OnBoard(p)
    ensures IsDraw(p.0 / CellSize, p.1 / CellSize)
    ensures CellAt(p.0 / CellSize, p.1 / CellSize) == p
  {
  }

  class Apple {
    var position: Pos

    /** The apple starts at a random cell, as if repositioned once. */
    constructor (col: int, row: int)
      requires IsDraw(col, row)
      ensures position == CellAt(col, row)
    {
      position := CellAt(col, row);
    }

    /** Moves the apple to the drawn cell; any previous position is forgotten. */
    method RandomizePosition(col: int, row: int)
      requires IsDraw(col, row)
      modifies this
      ensures position == CellAt(col, row)
      ensures OnBoard(position)
    {
      position := (col * CellSize, row * CellSize);
    }
  }
}
