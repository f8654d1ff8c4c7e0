/**
 * Board geometry of the snake game: the pixel board, its cell size, the
 * four unit direction vectors and the wrap-around step of the snake's head.
 */
module Grid {

  const Width: int := 640
  const Height: int := 480
  const CellSize: int := 20
  const GridWidth: int := Width / CellSize
  const GridHeight: int := Height / CellSize

  /** A pixel position (x, y), as the game stores it. */
  type Pos = (int, int)

  /** A movement vector (dx, dy), in cells per tick. */
  type Dir = (int, int)

  /** The position lies on the board and on a cell's top-left corner. */
  predicate OnBoard(p: Pos) {
    0 <= p.0 < Width && 0 <= p.1 < Height &&
    p.0 % CellSize == 0 && p.1 % CellSize == 0
  }

  /** One of the four arrow directions. */
  predicate IsUnit(d: Dir) {
    d == (1, 0) || d == (-1, 0) || d == (0, 1) || d == (0, -1)
  }

  function Opposite(d: Dir): Dir {
    (-d.0, -d.1)
  }

  /**
   * The head one step further in direction d, wrapping at the board edges;
   * the result always lies inside the board.
   */
  function NextHead(head: Pos, d: Dir): (r: Pos)
    ensures 0 <= r.0 < Width && 0 <= r.1 < Height
  {
    ((head.0 + d.0 * CellSize) % Width, (head.1 + d.1 * CellSize) % Height)
  }

  /** Wrapping a cell-aligned coordinate at a board edge keeps it cell-aligned. */
  lemma WrapKeepsAlignment(a: int, size: int)
    requires size == Width || size == Height
    requires a % CellSize == 0
    ensures (a % size) % CellSize == 0
  {
    var j, q := a / CellSize, a / size;
    var cells := size / CellSize;
    assert a == CellSize * j;
    assert size == CellSize * cells;
    assert a % size == CellSize * (j - cells * q);
  }

  /** A head on the cell grid stays on it after a step, whatever the direction. */
  lemma NextHeadOnBoard(head: Pos, d: Dir)
    requires OnBoard(head)
    ensures OnBoard(NextHead(head, d))
  {
    WrapKeepsAlignment(head.0 + d.0 * CellSize, Width);
    WrapKeepsAlignment(head.1 + d.1 * CellSize, Height);
  }

  /** The head after n steps in the fixed direction d. */
  function Advance(head: Pos, d: Dir, n: nat): Pos {
    if n == 0 then head else NextHead(Advance(head, d, n - 1), d)
  }

  /** Distance covered along one axis by n steps of the unit component c. */
  function Travel(c: int, n: nat): int {
    if c > 0 then CellSize * n else if c < 0 then -(CellSize * n) else 0
  }

  /** One more step along an axis of the given size adds one cell to the travelled distance. */
  lemma WrapStep(start: int, c: int, n: nat, size: int)
    requires -1 <= c <= 1 && n > 0
    requires size == Width || size == Height
    ensures ((start + Travel(c, n - 1)) % size + c * CellSize) % size == (start + Travel(c, n)) % size
  {
    assert Travel(c, n) == Travel(c, n - 1) + c * CellSize;
  }

  /** One more wrapped step from the closed form after n - 1 steps gives the closed form after n. */
  lemma NextHeadStep(head: Pos, d: Dir, n: nat)
    requires IsUnit(d) && n > 0
    ensures NextHead(((head.0 + Travel(d.0, n - 1)) % Width, (head.1 + Travel(d.1, n - 1)) % Height), d) ==
            ((head.0 + Travel(d.0, n)) % Width, (head.1 + Travel(d.1, n)) % Height)
  {
    WrapStep(head.0, d.0, n, Width);
    WrapStep(head.1, d.1, n, Height);
  }

  /** Closed form of n wrapped steps: the displacement is added once and reduced once. */
  lemma {:induction false} AdvanceClosedForm(head: Pos, d: Dir, n: nat)
    requires 0 <= head.0 < Width && 0 <= head.1 < Height
    requires IsUnit(d)
    ensures Advance(head, d, n) ==
            ((head.0 + Travel(d.0, n)) % Width, (head.1 + Travel(d.1, n)) % Height)
  {
    if n == 0 {
      assert Travel(d.0, n) == 0 && Travel(d.1, n) == 0;
    } else {
      AdvanceClosedForm(head, d, n - 1);
      NextHeadStep(head, d, n);
    }
  }

  /** The number of steps that crosses the whole board in direction d. */
  function LapLength(d: Dir): nat {
    if d.1 == 0 then GridWidth else GridHeight
  }

  /** Crossing a whole axis and wrapping lands on the starting coordinate. */
  lemma WrapFullAxis(x: int, c: int, n: nat, size: int)
    requires size == Width || size == Height
    requires 0 <= x < size && -1 <= c <= 1 && CellSize * n == size
    ensures (x + Travel(c, n)) % size == x
  {
  }

  /**
   * Wrap-around round trip: a head moving in one direction for as many
   * steps as the board has cells along that axis is back where it started.
   */
  lemma LapReturns(head: Pos, d: Dir)
    requires 0 <= head.0 < Width && 0 <= head.1 < Height
    requires IsUnit(d)
    ensures Advance(head, d, LapLength(d)) == head
  {
    if d.1 == 0 {
      HorizontalLap(head, d, LapLength(d));
    } else {
      VerticalLap(head, d, LapLength(d));
    }
  }

  /** The horizontal case of LapReturns: 32 steps left or right. */
  lemma HorizontalLap(head: Pos, d: Dir, n: nat)
    requires 0 <= head.0 < Width && 0 <= head.1 < Height
    requires IsUnit(d) && d.1 == 0 && n == GridWidth
    ensures Advance(head, d, n) == head
  {
    AdvanceClosedForm(head, d, n);
    WrapFullAxis(head.0, d.0, n, Width);
  }

  /** The vertical case of LapReturns: 24 steps up or down. */
  lemma VerticalLap(head: Pos, d: Dir, n: nat)
    requires 0 <= head.0 < Width && 0 <= head.1 < Height
    requires IsUnit(d) && d.0 == 0 && n == GridHeight
    ensures Advance(head, d, n) == head
  {
    AdvanceClosedForm(head, d, n);
    WrapFullAxis(head.1, d.1, n, Height);
  }
}
