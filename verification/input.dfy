/** Keyboard handling: the events one frame delivers, and how arrow keys
    are turned into a buffered turn that never reverses the snake. */
module Input {
  import opened Wrappers
  import opened Grid
  import opened SnakeState

  /** The keys the game distinguishes; every other key is `OtherKey`. */
  datatype Key = KeyUp | KeyDown | KeyLeft | KeyRight | OtherKey

  /** One event from the window's queue. */
  datatype Event = QuitEvent | KeyPress(key: Key) | OtherEvent

  /** What handling a frame's events leads to: the program exits, or
      continues with the snake whose turn buffer was updated. */
  datatype KeysOutcome = Quit | Continue(snake: Snake)

  /** The direction an arrow key asks for. */
  function KeyDirection(k: Key): (r: Option<Dir>)
    ensures r.None? <==> k == OtherKey
  {
    match k
    case KeyUp => Some(Up)
    case KeyDown => Some(Down)
    case KeyLeft => Some(Left)
    case KeyRight => Some(Right)
    case OtherKey => None
  }

  /** Buffers the direction of an arrow key unless it is the reverse of
      the current direction; any other key, or a reversing one, changes
      nothing. */
  function RequestDirection(s: Snake, k: Key): (r: Snake)
    ensures r == s.(nextDirection := r.nextDirection)
    ensures (KeyDirection(k).Some? && KeyDirection(k).value != Reverse(s.direction))
              ==> r.nextDirection == KeyDirection(k)
    ensures (KeyDirection(k).None? || KeyDirection(k).value == Reverse(s.direction))
              ==> r == s
    ensures NextOk(s) ==> NextOk(r)
  {
    match k
    case KeyUp => if s.direction != Down then s.(nextDirection := Some(Up)) else s
    case KeyDown => if s.direction != Up then s.(nextDirection := Some(Down)) else s
    case KeyLeft => if s.direction != Right then s.(nextDirection := Some(Left)) else s
    case KeyRight => if s.direction != Left then s.(nextDirection := Some(Right)) else s
    case OtherKey => s
  }

  /** The direction event `e` would buffer while the snake heads `dir`. */
  function Accepted(e: Event, dir: Dir): Option<Dir>
  {
    if e.KeyPress? && KeyDirection(e.key).Some? && KeyDirection(e.key).value != Reverse(dir)
    then KeyDirection(e.key)
    else None
  }

  /** Reference meaning of a frame's key handling: the buffer ends up holding
      the direction of the LAST accepted arrow key, or `init` if none was. */
  function LastAccepted(events: seq<Event>, dir: Dir, init: Option<Dir>): Option<Dir>
  {
    if |events| == 0 then init
    else if Accepted(events[|events| - 1], dir).Some? then Accepted(events[|events| - 1], dir)
    else LastAccepted(events[..|events| - 1], dir, init)
  }

  /** Processes the frame's events in order. A quit event ends the program;
      key presses go through `RequestDirection`; other events are ignored. */
  function HandleKeys(s: Snake, events: seq<Event>): (r: KeysOutcome)
    ensures r.Quit? <==> QuitEvent in events
    ensures r.Continue? ==> r.snake == s.(nextDirection := r.snake.nextDirection)
    decreases |events|
  {
    if |events| == 0 then Continue(s)
    else
      match events[0]
      case QuitEvent => Quit
      case KeyPress(k) => HandleKeys(RequestDirection(s, k), events[1..])
      case OtherEvent => HandleKeys(s, events[1..])
  }

  /** Handling one more event at the front equals starting from the buffer
      that event leaves. */
  lemma {:induction false} LastAcceptedCons(e: Event, rest: seq<Event>, dir: Dir, init: Option<Dir>)
    ensures LastAccepted([e] + rest, dir, init)
            == LastAccepted(rest, dir, if Accepted(e, dir).Some? then Accepted(e, dir) else init)
    decreases |rest|
  {
    var all := [e] + rest;
    if |rest| > 0 {
      assert all[|all| - 1] == rest[|rest| - 1];
      assert all[..|all| - 1] == [e] + rest[..|rest| - 1];
      LastAcceptedCons(e, rest[..|rest| - 1], dir, init);
    }
  }

  /** Without a quit event, key handling leaves everything but the buffer
      alone and the buffer holds the last accepted request. */
  lemma {:induction false} HandleKeysMeaning(s: Snake, events: seq<Event>)
    requires QuitEvent !in events
    ensures HandleKeys(s, events)
            == Continue(s.(nextDirection := LastAccepted(events, s.direction, s.nextDirection)))
    decreases |events|
  {
    if |events| > 0 {
      var e := events[0];
      var rest := events[1..];
      assert events == [e] + rest;
      LastAcceptedCons(e, rest, s.direction, s.nextDirection);
      match e
      case KeyPress(k) =>
        var s1 := RequestDirection(s, k);
        HandleKeysMeaning(s1, rest);
      case OtherEvent =>
        HandleKeysMeaning(s, rest);
    }
  }

  /** The last accepted request never reverses `dir`. */
  lemma {:induction false} LastAcceptedSafe(events: seq<Event>, dir: Dir, init: Option<Dir>)
    requires init.None? || init.value != Reverse(dir)
    ensures LastAccepted(events, dir, init).None? || LastAccepted(events, dir, init).value != Reverse(dir)
  {
    if |events| > 0 && Accepted(events[|events| - 1], dir).None? {
      LastAcceptedSafe(events[..|events| - 1], dir, init);
    }
  }

  /** However many keys a frame holds, the buffered turn taken next never
      reverses the snake. */
  lemma FrameNeverReverses(s: Snake, events: seq<Event>)
    requires NextOk(s) && QuitEvent !in events
    ensures HandleKeys(s, events).Continue?
    ensures UpdateDirection(HandleKeys(s, events).snake).direction != Reverse(s.direction)
  {
    HandleKeysMeaning(s, events);
    LastAcceptedSafe(events, s.direction, s.nextDirection);
  }

  /** A single arrow key followed by taking the turn: the snake heads the
      requested way unless that is the reverse of its direction, in which
      case it keeps going as before. */
  lemma RequestThenUpdate(s: Snake, k: Key, d: Dir)
    requires s.nextDirection.None? && KeyDirection(k) == Some(d)
    ensures d != Reverse(s.direction) ==> UpdateDirection(RequestDirection(s, k)).direction == d
    ensures d == Reverse(s.direction) ==> UpdateDirection(RequestDirection(s, k)).direction == s.direction
  {
  }
}
