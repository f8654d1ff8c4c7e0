/**
 * The snake: a head-first body of cell positions, a target length, the
 * current direction and a buffered turn. SnakeState is its value; the class
 * Snake updates the same fields in place and is specified by the functions
 * on SnakeState.
 */
module Snakes {
  import opened Options
  import opened Grid

  datatype SnakeState = SnakeState(
    length: int,
    positions: seq<Pos>,
    direction: Dir,
    nextDirection: Option<Dir>)

  /** A buffered turn is a real direction that does not reverse the current one. */
  predicate TurnOk(direction: Dir, next: Option<Dir>) {
    next.Some? ==> IsUnit(next.value) && next.value != Opposite(direction)
  }

  /**
   * What holds of every snake the game produces: a body of one to length
   * cells, all on the board; a unit direction; a buffered turn that is not a
   * reversal.
   */
  predicate Inv(s: SnakeState) {
    1 <= |s.positions| <= s.length &&
    (forall i :: 0 <= i < |s.positions| ==> OnBoard(s.positions[i])) &&
    IsUnit(s.direction) &&
    TurnOk(s.direction, s.nextDirection)
  }

  const Center: Pos := (Width / 2, Height / 2)

  /** The snake at the start of the game and after every reset. */
  function Initial(): (s: SnakeState)
    ensures Inv(s)
    ensures |s.positions| == s.length == 1 && s.positions[0] == Center
    ensures s.direction == (1, 0) && s.nextDirection == None
  {
    SnakeState(1, [Center], (1, 0), None)
  }

  /**
   * The buffered turn, if any, becomes the direction and the buffer is
   * cleared; with no buffered turn nothing changes. From a valid state the
   * new direction never reverses the old one.
   */
  function UpdatedDirection(s: SnakeState): (r: SnakeState)
    ensures r.length == s.length && r.positions == s.positions
    ensures r.nextDirection == None
    ensures s.nextDirection == None ==> r == s
    ensures s.nextDirection.Some? ==> r.direction == s.nextDirection.value
    ensures Inv(s) ==> Inv(r) && r.direction != Opposite(s.direction)
  {
    if s.nextDirection.Some? then
      s.(direction := s.nextDirection.value, nextDirection := None)
    else
      s
  }

  /**
   * One step: a new head, one cell further in the current direction with
   * wrap-around, is put in front of the body, and the tail is dropped when
   * the body then exceeds the target length. Old segments keep their order,
   * shifted by one; at most the old tail is lost.
   */
  function Moved(s: SnakeState): (r: SnakeState)
    requires |s.positions| > 0
    ensures r.length == s.length && r.direction == s.direction && r.nextDirection == s.nextDirection
    ensures |r.positions| > 0 && r.positions[0] == NextHead(s.positions[0], s.direction)
    ensures |s.positions| <= |r.positions| <= |s.positions| + 1
    ensures r.positions[1..] == s.positions[..|r.positions| - 1]
    ensures 1 <= |s.positions| <= s.length ==>
              |r.positions| == if |s.positions| + 1 <= s.length then |s.positions| + 1 else s.length
  {
    var body := [NextHead(s.positions[0], s.direction)] + s.positions;
    s.(positions := if |body| > s.length then body[..|body| - 1] else body)
  }

  /** Moving keeps the invariant: the body stays non-empty, within length and on the board. */
  lemma MovedKeepsInv(s: SnakeState)
    requires Inv(s)
    ensures Inv(Moved(s))
  {
  }

  /** The head meets a later segment of the body. */
  predicate Collides(s: SnakeState)
    requires |s.positions| > 0
    ensures Collides(s) <==> exists i :: 1 <= i < |s.positions| && s.positions[i] == s.positions[0]
  {
    s.positions[0] in s.positions[1..]
  }

  /** The snake after n steps without turning. */
  function MovedTimes(s: SnakeState, n: nat): (r: SnakeState)
    requires |s.positions| > 0
    ensures |r.positions| > 0
  {
    if n == 0 then s else Moved(MovedTimes(s, n - 1))
  }

  /** A one-cell snake's body is just its head, following Advance. */
  lemma {:induction false} LoneSnakeTrack(s: SnakeState, n: nat)
    requires Inv(s) && s.length == 1
    ensures MovedTimes(s, n).positions == [Advance(s.positions[0], s.direction, n)]
    ensures MovedTimes(s, n).direction == s.direction && MovedTimes(s, n).length == 1
  {
    if n > 0 {
      LoneSnakeTrack(s, n - 1);
    }
  }

  /**
   * Wrap-around round trip: a one-cell snake that keeps its direction is
   * back on its starting cell after crossing the board once.
   */
  lemma LoneSnakeLap(s: SnakeState)
    requires Inv(s) && s.length == 1
    ensures MovedTimes(s, LapLength(s.direction)).positions == s.positions
  {
    var n := LapLength(s.direction);
    LoneSnakeTrack(s, n);
    assert OnBoard(s.positions[0]);
    LapReturns(s.positions[0], s.direction);
  }

  class Snake {
    var length: int
    var positions: seq<Pos>
    var direction: Dir
    var nextDirection: Option<Dir>

    function State(): SnakeState
      reads this
    {
      SnakeState(length, positions, direction, nextDirection)
    }

    predicate Valid()
      reads this
    {
      Inv(State())
    }

    constructor ()
      ensures State() == Initial() && Valid()
    {
      length := 1;
      positions := [Center];
      direction := (1, 0);
      nextDirection := None;
    }

    method UpdateDirection()
      requires Valid()
      modifies this
      ensures Valid()
      ensures State() == UpdatedDirection(old(State()))
    {
      if nextDirection.Some? {
        direction := nextDirection.value;
        nextDirection := None;
      }
    }

    method Move()
      requires Valid()
      modifies this
      ensures Valid()
      ensures State() == Moved(old(State()))
    {
      MovedKeepsInv(State());
      var currentHead := positions[0];
      var newHead := NextHead(currentHead, direction);
      positions := [newHead] + positions;
      if |positions| > length {
        positions := positions[..|positions| - 1];
      }
    }

    /** The head of a valid snake is on the board and on the cell grid. */
    function GetHeadPosition(): (p: Pos)
      reads this
      requires Valid()
      ensures OnBoard(p)
    {
      positions[0]
    }

    /** Back to the initial single-cell state, whatever the state was. */
    method Reset()
      modifies this
      ensures State() == Initial() && Valid()
    {
      length := 1;
      positions := [Center];
      direction := (1, 0);
      nextDirection := None;
    }
  }
}
