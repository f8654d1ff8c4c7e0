/**
 * Keyboard handling: one batch of input events turns into a buffered turn
 * for the snake, or into the request to quit. A key is accepted only when it
 * does not reverse the snake's current direction, and the last accepted key
 * of the batch wins.
 */
module Keys {
  import opened Options
  import opened Grid
  import opened Snakes

  datatype Key = Up | Down | Left | Right | OtherKey

  datatype Event = QuitEvent | KeyDown(key: Key) | OtherEvent

  /** The direction an arrow key asks for; other keys ask for none. */
  function KeyDirection(k: Key): (r: Option<Dir>)
    ensures r.Some? <==> k != OtherKey
    ensures r.Some? ==> IsUnit(r.value)
  {
    match k
    case Up => Some((0, -1))
    case Down => Some((0, 1))
    case Left => Some((-1, 0))
    case Right => Some((1, 0))
    case OtherKey => None
  }

  /** The key asks for a direction that is not the reverse of the current one. */
  predicate Accepted(direction: Dir, k: Key)
    ensures Accepted(direction, k) <==>
            (k == Up && direction != (0, 1)) || (k == Down && direction != (0, -1)) ||
            (k == Left && direction != (1, 0)) || (k == Right && direction != (-1, 0))
  {
    KeyDirection(k).Some? && KeyDirection(k).value != Opposite(direction)
  }

  /** The buffered turn after one key: an accepted key replaces it, any other key leaves it. */
  function AfterKey(direction: Dir, next: Option<Dir>, k: Key): Option<Dir> {
    if Accepted(direction, k) then KeyDirection(k) else next
  }

  /**
   * The buffered turn after the events are handled in order. A quit event
   * ends the game, so nothing after it is handled.
   */
  function Pending(direction: Dir, next: Option<Dir>, events: seq<Event>): (r: Option<Dir>)
    ensures r == next ||
            exists i :: 0 <= i < |events| && events[i].KeyDown? && Accepted(direction, events[i].key) &&
                        QuitEvent !in events[..i] && r == KeyDirection(events[i].key)
    decreases |events|
  {
    if events == [] then next
    else
      match events[0]
      case QuitEvent => next
      case KeyDown(k) => Pending(direction, AfterKey(direction, next, k), events[1..])
      case OtherEvent => Pending(direction, next, events[1..])
  }

  /** Handling keys never buffers a reversal or a non-direction, whatever the events. */
  lemma {:induction false} PendingKeepsTurnOk(direction: Dir, next: Option<Dir>, events: seq<Event>)
    requires TurnOk(direction, next)
    ensures TurnOk(direction, Pending(direction, next, events))
    decreases |events|
  {
    if events != [] {
      match events[0]
      case QuitEvent =>
      case KeyDown(k) =>
        PendingKeepsTurnOk(direction, AfterKey(direction, next, k), events[1..]);
      case OtherEvent =>
        PendingKeepsTurnOk(direction, next, events[1..]);
    }
  }

  /** The events that are handled: those before the first quit event. */
  function BeforeQuit(events: seq<Event>): (r: seq<Event>)
    ensures QuitEvent !in r
    ensures r <= events
    ensures QuitEvent !in events ==> r == events
    ensures |r| < |events| ==> events[|r|] == QuitEvent
  {
    if events == [] || events[0] == QuitEvent then []
    else [events[0]] + BeforeQuit(events[1..])
  }

  /** Reference definition: the direction of the last accepted key, read from the end. */
  function LastAccepted(direction: Dir, events: seq<Event>): Option<Dir> {
    if events == [] then None
    else
      var e := events[|events| - 1];
      if e.KeyDown? && Accepted(direction, e.key) then KeyDirection(e.key)
      else LastAccepted(direction, events[..|events| - 1])
  }

  /** Keep the newer turn when there is one. */
  function Newer(newer: Option<Dir>, older: Option<Dir>): Option<Dir> {
    if newer.Some? then newer else older
  }

  /** Putting an event in front only matters when no later event is accepted. */
  lemma {:induction false} LastAcceptedCons(direction: Dir, e: Event, events: seq<Event>)
    ensures LastAccepted(direction, [e] + events) ==
            Newer(LastAccepted(direction, events),
                  if e.KeyDown? && Accepted(direction, e.key) then KeyDirection(e.key) else None)
  {
    if events != [] {
      var all := [e] + events;
      assert all[..|all| - 1] == [e] + events[..|events| - 1];
      LastAcceptedCons(direction, e, events[..|events| - 1]);
    }
  }

  /**
   * The last accepted key before any quit event wins; with no accepted key
   * the buffered turn is kept.
   */
  lemma {:induction false} LastAcceptedKeyWins(direction: Dir, next: Option<Dir>, events: seq<Event>)
    ensures Pending(direction, next, events) ==
            Newer(LastAccepted(direction, BeforeQuit(events)), next)
    decreases |events|
  {
    if events != [] && events[0] != QuitEvent {
      var rest := events[1..];
      assert BeforeQuit(events) == [events[0]] + BeforeQuit(rest);
      LastAcceptedCons(direction, events[0], BeforeQuit(rest));
      match events[0]
      case KeyDown(k) =>
        LastAcceptedKeyWins(direction, AfterKey(direction, next, k), rest);
      case OtherEvent =>
        LastAcceptedKeyWins(direction, next, rest);
    }
  }

  /**
   * Handles the events in order. A quit event stops the handling and is
   * reported; an arrow key is buffered unless it reverses the current
   * direction. Only the buffered turn changes.
   */
  method HandleKeys(snake: Snake, events: seq<Event>) returns (quit: bool)
    modifies snake
    ensures quit <==> QuitEvent in events
    ensures snake.nextDirection == Pending(old(snake.direction), old(snake.nextDirection), events)
    ensures snake.length == old(snake.length) && snake.positions == old(snake.positions)
    ensures snake.direction == old(snake.direction)
  {
    var i := 0;
    while i < |events|
      invariant 0 <= i <= |events|
      invariant QuitEvent !in events[..i]
      invariant Pending(snake.direction, snake.nextDirection, events[i..]) ==
                Pending(old(snake.direction), old(snake.nextDirection), events)
      invariant snake.length == old(snake.length) && snake.positions == old(snake.positions)
      invariant snake.direction == old(snake.direction)
    {
      var event := events[i];
      match event {
        case QuitEvent =>
          assert QuitEvent in events;
          return true;
        case KeyDown(key) =>
          if key == Up && snake.direction != (0, 1) {
            snake.nextDirection := Some((0, -1));
          } else if key == Down && snake.direction != (0, -1) {
            snake.nextDirection := Some((0, 1));
          } else if key == Left && snake.direction != (1, 0) {
            snake.nextDirection := Some((-1, 0));
          } else if key == Right && snake.direction != (-1, 0) {
            snake.nextDirection := Some((1, 0));
          }
        case OtherEvent =>
      }
      assert events[..i + 1] == events[..i] + [event];
      i := i + 1;
    }
    assert events[..i] == events;
    return false;
  }
}
