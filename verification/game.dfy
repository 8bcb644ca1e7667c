/** One iteration of the main loop: read the keys, take the buffered turn,
    move, and let the snake eat the apple if any of its cells is on it. */
module Game {
  import opened Wrappers
  import opened Grid
  import opened Apple
  import opened SnakeState
  import opened Input

  /** The whole game: the snake and the apple's position. */
  datatype Game = Game(snake: Snake, apple: Cell)

  /** The random choices one tick may consume: the direction a restart
      picks and the grid column and row of a relocated apple. */
  datatype Dice = Dice(resetDir: Dir, col: int, row: int)

  /** The dice are within the ranges the random generator draws from. */
  predicate DiceOk(dice: Dice)
  {
    0 <= dice.col < GridWidth && 0 <= dice.row < GridHeight
  }

  /** The state the loop keeps between ticks: a well-shaped snake with an
      empty turn buffer and an apple on a grid square. */
  predicate Valid(g: Game)
  {
    ShapeOk(g.snake) && g.snake.nextDirection.None? && OnGrid(g.apple)
  }

  /** The game at start-up: the apple is placed first, then the snake is
      created at the centre heading right. */
  function Start(col: int, row: int): (g: Game)
    requires 0 <= col < GridWidth && 0 <= row < GridHeight
    ensures Valid(g)
    ensures g.snake.body == [Centre] && g.snake.length == 1 && g.snake.direction == Right
    ensures g.snake.nextDirection.None? && g.snake.last.None?
    ensures g.apple == RandomizePosition(col, row)
  {
    Game(Initial, RandomizePosition(col, row))
  }

  /** Eating: when the apple lies on any cell of the body, the target
      length grows by one and the apple moves to the drawn square. */
  function Feed(s: Snake, apple: Cell, col: int, row: int): (g: Game)
    requires 0 <= col < GridWidth && 0 <= row < GridHeight
    ensures apple in s.body ==> g == Game(s.(length := s.length + 1), RandomizePosition(col, row))
    ensures apple !in s.body ==> g == Game(s, apple)
  {
    if Accident(apple, s.body) then Game(s.(length := s.length + 1), RandomizePosition(col, row))
    else Game(s, apple)
  }

  /** One tick of the main loop. `None` is the program exiting on a quit
      event. */
  function Tick(g: Game, events: seq<Event>, dice: Dice): (r: Option<Game>)
    requires |g.snake.body| > 0 && DiceOk(dice)
    ensures r.None? <==> QuitEvent in events
    ensures r.Some? ==> |r.value.snake.body| > 0
  {
    match HandleKeys(g.snake, events)
    case Quit => None
    case Continue(keyed) =>
      var moved := Move(UpdateDirection(keyed), dice.resetDir);
      Some(Feed(moved, g.apple, dice.col, dice.row))
  }

  /** A tick keeps the loop's state valid: the body stays on the grid, its
      size stays at the target length or one below it, the turn buffer is
      empty again and the apple stays on a grid square. */
  lemma TickPreservesValid(g: Game, events: seq<Event>, dice: Dice)
    requires Valid(g) && DiceOk(dice) && QuitEvent !in events
    ensures Tick(g, events, dice).Some?
    ensures Valid(Tick(g, events, dice).value)
  {
    HandleKeysMeaning(g.snake, events);
    var keyed := HandleKeys(g.snake, events).snake;
    var turned := UpdateDirection(keyed);
    MovePreservesShape(turned, dice.resetDir);
  }

  /** What a tick does to the snake when it does not run into itself:
      the snake heads the last accepted key's way (never the reverse of
      where it was heading), the new head is one square on in that
      direction, and the target length grows exactly when the apple lies
      under the moved body. */
  lemma TickWithoutCollision(g: Game, events: seq<Event>, dice: Dice)
    requires Valid(g) && DiceOk(dice) && QuitEvent !in events
    requires !SelfHit(g.snake)
    ensures Tick(g, events, dice).Some?
    ensures var s := Tick(g, events, dice).value.snake;
            var d := LastAccepted(events, g.snake.direction, None);
            && s.direction == (if d.Some? then d.value else g.snake.direction)
            && s.direction != Reverse(g.snake.direction)
            && s.body[0] == NextCell(g.snake.body[0], s.direction)
            && |s.body| == g.snake.length
            && (s.length == g.snake.length + 1 <==> g.apple in s.body)
            && (s.length == g.snake.length <==> g.apple !in s.body)
  {
    HandleKeysMeaning(g.snake, events);
    FrameNeverReverses(g.snake, events);
    var turned := UpdateDirection(HandleKeys(g.snake, events).snake);
    MovePreservesShape(turned, dice.resetDir);
  }

  /** A tick on a snake whose head overlaps its body restarts it, heading
      the random direction, and the apple is eaten only if it sits on the
      centre square. */
  lemma TickWithCollision(g: Game, events: seq<Event>, dice: Dice)
    requires Valid(g) && DiceOk(dice) && QuitEvent !in events
    requires SelfHit(g.snake)
    ensures Tick(g, events, dice).Some?
    ensures var r := Tick(g, events, dice).value;
            && r.snake.body == [Centre]
            && r.snake.direction == dice.resetDir
            && r.snake.length == (if g.apple == Centre then 2 else 1)
            && r.apple == (if g.apple == Centre then RandomizePosition(dice.col, dice.row) else g.apple)
  {
    HandleKeysMeaning(g.snake, events);
  }

  /** One tick's worth of loop input: the frame's events and the dice. */
  datatype Frame = Frame(events: seq<Event>, dice: Dice)

  /** Runs the loop over a finite list of frames, stopping at the first
      frame that holds a quit event. */
  function Run(g: Game, frames: seq<Frame>): (r: Option<Game>)
    requires |g.snake.body| > 0
    requires forall i :: 0 <= i < |frames| ==> DiceOk(frames[i].dice)
    ensures r.None? <==> exists i :: 0 <= i < |frames| && QuitEvent in frames[i].events
    decreases |frames|
  {
    if |frames| == 0 then Some(g)
    else
      match Tick(g, frames[0].events, frames[0].dice)
      case None => None
      case Some(g') => Run(g', frames[1..])
  }

  /** Any number of ticks from a valid state ends in a valid state. */
  lemma {:induction false} RunPreservesValid(g: Game, frames: seq<Frame>)
    requires Valid(g)
    requires forall i :: 0 <= i < |frames| ==> DiceOk(frames[i].dice)
    requires forall i :: 0 <= i < |frames| ==> QuitEvent !in frames[i].events
    ensures Run(g, frames).Some?
    ensures Valid(Run(g, frames).value)
    decreases |frames|
  {
    if |frames| > 0 {
      TickPreservesValid(g, frames[0].events, frames[0].dice);
      RunPreservesValid(Tick(g, frames[0].events, frames[0].dice).value, frames[1..]);
    }
  }
}
