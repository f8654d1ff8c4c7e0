# Snake game state, modelled in Dafny

A model of the game state of "the_snake", a single-player grid snake game
written in Python with pygame. The board is 640 × 480 pixels, cut into
20-pixel cells (32 columns, 24 rows). The snake is a head-first list of cell
positions with a target length, a current direction and a buffered turn.
Each tick of the game loop:

1. handles the keyboard events: an arrow key is buffered as the next turn
   unless it reverses the current direction, and a quit event ends the game;
2. applies the buffered turn;
3. moves the snake one cell, wrapping at the board edges, and drops the tail
   when the body is longer than the target length;
4. grows the target length by one and moves the apple to a random cell when
   the head is on the apple;
5. resets the snake when its head lies on the rest of its body.

Modules, one per component of `the_snake.py`:

- `Options` (options.dfy): the optional buffered turn.
- `Grid` (grid.dfy): the board constants, the four unit directions, the
  wrap-around step of the head, and the wrap-around round trip.
- `Food` (food.dfy): the class `Apple` and the cell a random draw selects.
- `Snakes` (snake.dfy): the snake's value `SnakeState`, its invariant `Inv`,
  the functions that specify each operation, and the class `Snake`. Its
  methods change the fields in place, and each is proved to do what the
  matching function says.
- `Keys` (keys.dfy): the event types, the function `Pending` that specifies
  key handling, its properties, and the loop `HandleKeys`.
- `Game` (game.dfy): one tick as the function `Tick` over `World` (snake and
  apple), its properties, and the method `Step`, which runs the tick on the
  two objects.

The random draw of `Apple.randomize_position` is two integer parameters
(`col`, `row`). They are restricted to the ranges of the random source,
`[0, GridWidth - 1]` and `[0, GridHeight - 1]`. The keyboard is a sequence of
`Event` values. Quitting is a returned flag instead of a process exit.

On a quit event the game calls `quit()` inside its event loop
(the_snake.py:106-108), so the events after it are never handled and the
snake does not move in that tick. `HandleKeys` returns at the first quit
event, and `Step` returns right after it.

Python's `%` with a positive modulus never returns a negative result, and
neither does Dafny's `%` on `int`. Python integers are unbounded, so no
wrap-around is modelled.

## Model

| member | source | states |
|---|---|---|
| `Grid.NextHead` | the_snake.py:77-81 | the new head `((x + dx*20) % 640, (y + dy*20) % 480)` always lies inside the board, whatever the old head and direction |
| `Grid.WrapKeepsAlignment` | the_snake.py:79-80 | wrapping a multiple of the cell size at the board's width or height gives a multiple of the cell size |
| `Grid.NextHeadOnBoard` | the_snake.py:77-81 | a head on the cell grid stays on the cell grid after one step, in any direction |
| `Grid.AdvanceClosedForm` | the_snake.py:78-81 | n wrapped steps in a unit direction equal one displacement of n cells reduced once modulo the board size |
| `Grid.LapReturns` | the_snake.py:78-81 | moving for 32 steps horizontally, or 24 vertically, brings a head back to its starting pixel |
| `Food.CellAt` | the_snake.py:48-51 | every draw in the random source's ranges gives a position inside the board and on the cell grid |
| `Food.CellAtCoversBoard` | the_snake.py:48-51 | every board cell is the result of some draw, including cells the snake occupies; nothing is excluded |
| `Food.Apple.constructor` | the_snake.py:41-44 | a new apple is at the drawn cell |
| `Food.Apple.RandomizePosition` | the_snake.py:46-51 | the apple moves to the drawn cell, which is on the board; the old position plays no part |
| `Snakes.Initial` | the_snake.py:61-67 | the initial snake satisfies the invariant: one segment at the centre (320, 240), length 1, moving right, no buffered turn |
| `Snakes.UpdatedDirection` | the_snake.py:69-73 | a buffered turn becomes the direction and the buffer is cleared; with none, the state is unchanged; body and length never change; from a valid state the new direction is never the reverse of the old |
| `Snakes.Moved` | the_snake.py:75-84 | the new head is the wrapped step of the old head; the rest of the body is the old body in order, with at most the old tail dropped; with `1 <= len <= length` the new length is `min(len + 1, length)`; length and directions are unchanged |
| `Snakes.Collides` | the_snake.py:133 | the head collides exactly when some later segment of the body (index 1 onward) equals it |
| `Snakes.MovedKeepsInv` | the_snake.py:75-84 | after a move the body is still non-empty, no longer than `length`, and entirely on the board |
| `Snakes.LoneSnakeTrack` | the_snake.py:75-84 | a one-segment snake's body after n moves is exactly its head advanced n steps |
| `Snakes.LoneSnakeLap` | the_snake.py:75-84 | a one-segment snake moving straight across the whole board is back on its starting cell |
| `Snakes.Snake.constructor` | the_snake.py:61-67 | a new snake is in the initial state |
| `Snakes.Snake.UpdateDirection` | the_snake.py:69-73 | the fields change as `UpdatedDirection` says, and the invariant is kept |
| `Snakes.Snake.Move` | the_snake.py:75-84 | the fields change as `Moved` says, and the invariant is kept |
| `Snakes.Snake.GetHeadPosition` | the_snake.py:92-94 | the head of a valid snake is inside the board and on the cell grid |
| `Snakes.Snake.Reset` | the_snake.py:96-101 | from any state the snake is in the initial state afterwards; the result does not depend on the old state, so resetting twice is the same as resetting once |
| `Keys.KeyDirection` | the_snake.py:110-117 | the four arrow keys, and only they, map to a direction, and each such direction is a unit vector |
| `Keys.Accepted` | the_snake.py:110-117 | "not the reverse of the current direction" is exactly the source's four tests of each arrow key against one fixed direction |
| `Keys.Pending` | the_snake.py:105-117 | an accepted arrow key replaces the buffered turn, any other event keeps it, and handling stops at the first quit; so the result is the old turn or the direction of an accepted key that comes before every quit event |
| `Keys.PendingKeepsTurnOk` | the_snake.py:109-117 | key handling never buffers the reverse of the current direction, and only buffers unit directions |
| `Keys.BeforeQuit` | the_snake.py:105-108 | the handled events are the quit-free prefix of the batch that stops at the first quit event, and the whole batch when it holds no quit event |
| `Keys.LastAcceptedCons` | the_snake.py:109-117 | an earlier event decides the last accepted key only when no later event is accepted |
| `Keys.LastAcceptedKeyWins` | the_snake.py:105-117 | the buffered turn after handling is the direction of the last accepted arrow key before any quit event, or the old buffered turn when no key is accepted |
| `Keys.HandleKeys` | the_snake.py:103-117 | quit is reported exactly when a quit event is in the batch; the buffered turn becomes `Pending` of the events; direction, body and length are not modified |
| `Game.Advanced` | the_snake.py:125-127 | after handling keys, applying the turn and moving: the direction is the buffered turn left by the keys, or the old direction when there is none; the buffer is empty; the head is one wrapped step in that direction; the old body follows, and its tail is dropped exactly when the grown body would exceed the length target, so a valid body has `min(len + 1, length)` cells; the length target is unchanged |
| `Game.Tick` | the_snake.py:124-134 | the tick reports quit exactly when a quit event arrives, and then leaves the body, length, direction and apple as they were |
| `Game.TickKeepsInv` | the_snake.py:124-134 | a tick keeps the invariant: `1 <= len <= length`, body on the board, a unit direction, a non-reversing buffered turn, and the apple on the board |
| `Game.TickEats` | the_snake.py:129-131 | when the moved head is on the apple and there is no collision, the length grows by exactly one and the apple moves to the drawn cell |
| `Game.TickMisses` | the_snake.py:129-131 | when the moved head misses the apple, the apple stays; without a collision the snake is just the moved snake |
| `Game.TickCollisionResets` | the_snake.py:133-134 | when the moved head lies on the rest of the body, the snake is reset, discarding this tick's growth; the apple is repositioned only if it was eaten |
| `Game.Step` | the_snake.py:125-134 | running the tick on the snake and apple objects gives the state and quit flag that `Tick` specifies, and keeps both objects valid |

## Left out

- Rendering: the pygame window, caption, colours, `draw` methods, `screen.fill` and `display.update` (the_snake.py:5, 13-20, 34-36, 53-56, 86-90, 136-139). They only draw and go through a foreign library. The `color` field of the game objects is left out for the same reason.
- Event polling with `pygame.event.get` and the process exit with `pygame.quit()` / `quit()` (the_snake.py:105-108). The events are a parameter and the exit is the returned quit flag.
- Frame pacing with `clock.tick(FPS)` (the_snake.py:23-24, 140). It is timing only and changes no state.
- The internals of `random.randint` (the_snake.py:49-50). The draw is any column and row in the stated ranges, given as parameters.
- The endless `while True` loop (the_snake.py:124). One tick is modelled, and `TickKeepsInv` shows that every tick keeps the invariant.
- The `GameObject` base class (the_snake.py:26-36). It only holds the position and colour; the apple's default position (0, 0) is overwritten at once by its constructor.
