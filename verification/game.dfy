/**
 * One tick of the game loop: handle the input events, apply the buffered
 * turn, move, eat the apple when the head reaches it, and reset the snake
 * when its head runs into its own body. Drawing and frame pacing follow in
 * the game and do not change its state.
 */
module Game {
  import opened Grid
  import opened Food
  import opened Snakes
  import opened Keys

  datatype World = World(snake: SnakeState, apple: Pos)

  /** What a tick leaves behind, and whether the player asked to quit. */
  datatype Outcome = Outcome(world: World, quit: bool)

  predicate WorldInv(w: World) {
    Inv(w.snake) && OnBoard(w.apple)
  }

  /** The snake after handling the events, applying the turn and moving. */
  function Advanced(s: SnakeState, events: seq<Event>): (r: SnakeState)
    requires |s.positions| > 0
    ensures r.length == s.length && r.nextDirection.None?
    ensures var turn := Pending(s.direction, s.nextDirection, events);
            r.direction == if turn.Some? then turn.value else s.direction
    ensures |r.positions| > 0 && r.positions[0] == NextHead(s.positions[0], r.direction)
    ensures |s.positions| <= |r.positions| <= |s.positions| + 1
    ensures r.positions[1..] == s.positions[..|r.positions| - 1]
    ensures 1 <= |s.positions| <= s.length ==>
              |r.positions| == if |s.positions| + 1 <= s.length then |s.positions| + 1 else s.length
  {
    var steered := s.(nextDirection := Pending(s.direction, s.nextDirection, events));
    Moved(UpdatedDirection(steered))
  }

  /**
   * One tick. A quit event ends the game before the snake moves (only the
   * keys before it have been handled). Otherwise the snake moves; if its
   * head is on the apple, its target length grows by one and the apple goes
   * to the drawn cell; then, if the head lies on the rest of the body, the
   * snake is reset (the apple stays where it is).
   */
  function Tick(w: World, events: seq<Event>, col: int, row: int): (r: Outcome)
    requires |w.snake.positions| > 0
    requires IsDraw(col, row)
    ensures r.quit <==> QuitEvent in events
    ensures r.quit ==> r.world.apple == w.apple &&
                       r.world.snake == w.snake.(nextDirection := r.world.snake.nextDirection)
    ensures |r.world.snake.positions| > 0
  {
    var s := w.snake;
    if QuitEvent in events then
      Outcome(World(s.(nextDirection := Pending(s.direction, s.nextDirection, events)), w.apple), true)
    else
      var moved := Advanced(s, events);
      var eats := moved.positions[0] == w.apple;
      var fed := if eats then moved.(length := moved.length + 1) else moved;
      var apple := if eats then CellAt(col, row) else w.apple;
      var snake := if Collides(fed) then Initial() else fed;
      Outcome(World(snake, apple), false)
  }

  /** A tick keeps the game's invariant: a well-formed snake and an apple on the board. */
  lemma TickKeepsInv(w: World, events: seq<Event>, col: int, row: int)
    requires WorldInv(w) && IsDraw(col, row)
    ensures WorldInv(Tick(w, events, col, row).world)
  {
    var s := w.snake;
    var steered := s.(nextDirection := Pending(s.direction, s.nextDirection, events));
    PendingKeepsTurnOk(s.direction, s.nextDirection, events);
    assert Inv(steered);
    MovedKeepsInv(UpdatedDirection(steered));
  }

  /**
   * Eating: when the moved head is on the apple and does not hit the body,
   * the target length grows by exactly one and the apple moves to the drawn
   * cell.
   */
  lemma TickEats(w: World, events: seq<Event>, col: int, row: int)
    requires |w.snake.positions| > 0 && IsDraw(col, row)
    requires QuitEvent !in events
    requires Advanced(w.snake, events).positions[0] == w.apple
    requires !Collides(Advanced(w.snake, events))
    ensures Tick(w, events, col, row) ==
            Outcome(World(Advanced(w.snake, events).(length := w.snake.length + 1), CellAt(col, row)), false)
  {
  }

  /**
   * Not eating: when the moved head misses the apple, the apple stays and
   * the target length is unchanged (unless the snake is reset).
   */
  lemma TickMisses(w: World, events: seq<Event>, col: int, row: int)
    requires |w.snake.positions| > 0 && IsDraw(col, row)
    requires QuitEvent !in events
    requires Advanced(w.snake, events).positions[0] != w.apple
    ensures Tick(w, events, col, row).world.apple == w.apple
    ensures !Collides(Advanced(w.snake, events)) ==>
              Tick(w, events, col, row).world.snake == Advanced(w.snake, events)
  {
  }

  /**
   * Self-collision: when the moved head lies on the rest of the body, the
   * snake is back in its initial state, so any growth from this tick's meal
   * is discarded; the apple is still repositioned if it was eaten.
   */
  lemma TickCollisionResets(w: World, events: seq<Event>, col: int, row: int)
    requires |w.snake.positions| > 0 && IsDraw(col, row)
    requires QuitEvent !in events
    requires Collides(Advanced(w.snake, events))
    ensures Tick(w, events, col, row).world.snake == Initial()
    ensures Tick(w, events, col, row).world.apple ==
            if Advanced(w.snake, events).positions[0] == w.apple then CellAt(col, row) else w.apple
  {
  }

  /**
   * Runs one tick on the game's two objects. The snake and the apple end up
   * as Tick says, and the quit flag is returned instead of leaving the
   * process.
   */
  method Step(snake: Snake, apple: Apple, events: seq<Event>, col: int, row: int) returns (quit: bool)
    requires snake.Valid() && OnBoard(apple.position)
    requires IsDraw(col, row)
    modifies snake, apple
    ensures snake.Valid() && OnBoard(apple.position)
    ensures Outcome(World(snake.State(), apple.position), quit) ==
            Tick(World(old(snake.State()), old(apple.position)), events, col, row)
  {
    ghost var w := World(snake.State(), apple.position);
    TickKeepsInv(w, events, col, row);
    PendingKeepsTurnOk(snake.direction, snake.nextDirection, events);
    quit := HandleKeys(snake, events);
    if quit {
      return;
    }
    snake.UpdateDirection();
    snake.Move();
    if snake.GetHeadPosition() == apple.position {
      snake.length := snake.length + 1;
      apple.RandomizePosition(col, row);
    }
    if snake.GetHeadPosition() in snake.positions[1..] {
      snake.Reset();
    }
  }
}
