/** The snake itself: its body (head first), the target length, the
    current and buffered directions and the last tail cell it dropped, with
    the operations that turn, move and reset it. */
module SnakeState {
  import opened Wrappers
  import opened Grid

  /** One snake. `body[0]` is the head; `length` is the number of cells the
      body should settle to; `nextDirection` is the turn requested by the
      keyboard and not yet taken; `last` is the tail cell most recently
      dropped (the renderer paints it over). */
  datatype Snake = Snake(
    body: seq<Cell>,
    length: int,
    direction: Dir,
    nextDirection: Option<Dir>,
    last: Option<Cell>)

  /** A freshly created snake: one cell at the centre, heading right. */
  const Initial: Snake := Snake([Centre], 1, Right, None, None)

  /** The shape every reachable snake keeps: a non-empty body of on-grid
      cells whose size is the target length, or one less while a growth
      is still pending, and an on-grid dropped cell if there is one. */
  predicate ShapeOk(s: Snake)
  {
    && |s.body| >= 1
    && s.length - 1 <= |s.body| <= s.length
    && (forall i :: 0 <= i < |s.body| ==> OnGrid(s.body[i]))
    && (s.last.Some? ==> OnGrid(s.last.value))
  }

  /** The buffered turn, if any, does not reverse the current direction. */
  predicate NextOk(s: Snake)
  {
    s.nextDirection.None? || s.nextDirection.value != Reverse(s.direction)
  }

  /** The head overlaps the rest of the body. */
  predicate SelfHit(s: Snake)
    requires |s.body| > 0
  {
    s.body[0] in s.body[1..]
  }

  /** The position of the head (the first body cell). */
  function GetHead(s: Snake): (head: Cell)
    requires |s.body| > 0
    ensures [head] + s.body[1..] == s.body
    ensures ShapeOk(s) ==> OnGrid(head)
  {
    s.body[0]
  }

  /** Takes the buffered turn, if there is one, and empties the buffer.
      (In the program any stored direction tuple is truthy, so "is set" is
      the only test.) */
  function UpdateDirection(s: Snake): (r: Snake)
    ensures r.nextDirection.None?
    ensures r.body == s.body && r.length == s.length && r.last == s.last
    ensures s.nextDirection.Some? ==> r.direction == s.nextDirection.value
    ensures s.nextDirection.None? ==> r == s
  {
    match s.nextDirection
    case Some(d) => s.(direction := d, nextDirection := None)
    case None => s
  }

  /** Taking a buffered turn that respects `NextOk` never reverses the snake. */
  lemma UpdateNeverReverses(s: Snake)
    requires NextOk(s)
    ensures UpdateDirection(s).direction != Reverse(s.direction)
  {
  }

  /** A second update has nothing left to take. */
  lemma UpdateIdempotent(s: Snake)
    ensures UpdateDirection(UpdateDirection(s)) == UpdateDirection(s)
  {
  }

  /** Restarts the snake after it ran into itself: one cell at the centre,
      target length one, and the randomly chosen direction `d`. The
      program's reset leaves the buffered turn and the dropped cell as they
      were. The body is the one-cell list holding the centre; the program
      as written stores the two centre coordinates as two separate body
      entries instead (see module AsWritten). */
  function Reset(s: Snake, d: Dir): (r: Snake)
    ensures ShapeOk(s) ==> ShapeOk(r)
    ensures r.body == [Centre] && r.length == 1 && r.direction == d
    ensures r.nextDirection == s.nextDirection && r.last == s.last
  {
    s.(length := 1, body := [Centre], direction := d)
  }

  /** Drops the tail into `last` when the body is longer than the target. */
  function Trim(s: Snake): (r: Snake)
    requires |s.body| > 1 || (|s.body| == 1 && s.length >= 1)
    ensures |r.body| > 0
    ensures r.length == s.length && r.direction == s.direction && r.nextDirection == s.nextDirection
    ensures |s.body| > s.length ==> r.last.Some? && r.body + [r.last.value] == s.body
    ensures |s.body| <= s.length ==> r == s
  {
    if |s.body| > s.length then
      s.(body := s.body[..|s.body| - 1], last := Some(s.body[|s.body| - 1]))
    else s
  }

  /** One movement step. The new head is pushed in front of the body; then
      the snake restarts if the previous head occurs again at index two or
      later of the extended body; finally the tail is dropped when the body
      is longer than the target length. `resetDir` is the random direction
      a restart would choose. */
  function Move(s: Snake, resetDir: Dir): (r: Snake)
    requires |s.body| > 0
    ensures |r.body| > 0
    ensures InBounds(r.body[0])
    ensures Aligned(s.body[0]) ==> Aligned(r.body[0])
    ensures SelfHit(s) ==> r == Reset(s, resetDir)
    ensures !SelfHit(s) ==>
      && r.direction == s.direction
      && r.length == s.length
      && r.nextDirection == s.nextDirection
      && |r.body| == (if |s.body| >= s.length then |s.body| else |s.body| + 1)
      && r.body[0] == NextCell(s.body[0], s.direction)
      && r.body[1..] == s.body[..|r.body| - 1]
      && r.last == (if |s.body| >= s.length then Some(s.body[|s.body| - 1]) else s.last)
  {
    var head := GetHead(s);
    var grown := s.(body := [NextCell(head, s.direction)] + s.body);
    var checked := if head in grown.body[2..] then Reset(grown, resetDir) else grown;
    assert grown.body[2..] == s.body[1..];
    assert Reset(grown, resetDir) == Reset(s, resetDir);
    Trim(checked)
  }

  /** The restart test on the extended body is exactly "the old head
      overlapped the rest of the old body": the collision is decided by the
      body as it stood before the step, whatever direction is taken. */
  lemma CollisionTrigger(s: Snake)
    requires |s.body| > 0
    ensures s.body[0] in ([NextCell(s.body[0], s.direction)] + s.body)[2..] <==> SelfHit(s)
  {
    assert ([NextCell(s.body[0], s.direction)] + s.body)[2..] == s.body[1..];
  }

  /** Moving keeps the snake's shape, and after the move the body size
      equals the target length exactly. */
  lemma MovePreservesShape(s: Snake, resetDir: Dir)
    requires ShapeOk(s)
    ensures ShapeOk(Move(s, resetDir))
    ensures |Move(s, resetDir).body| == Move(s, resetDir).length
  {
    var r := Move(s, resetDir);
    if !SelfHit(s) {
      assert OnGrid(r.body[0]);
      forall i | 1 <= i < |r.body|
        ensures OnGrid(r.body[i])
      {
        assert r.body[i] == r.body[1..][i - 1] == s.body[i - 1];
      }
    }
  }

  /** A snake whose body already has its target size keeps it. */
  lemma MoveKeepsSize(s: Snake, resetDir: Dir)
    requires |s.body| > 0 && |s.body| == s.length && !SelfHit(s)
    ensures |Move(s, resetDir).body| == Move(s, resetDir).length == s.length
    ensures Move(s, resetDir).last == Some(s.body[|s.body| - 1])
  {
  }

  /** One more unit of target length makes the next step drop nothing:
      the body becomes the new head followed by the whole old body. */
  lemma GrowThenMove(s: Snake, resetDir: Dir)
    requires |s.body| > 0 && |s.body| == s.length && !SelfHit(s)
    ensures Move(s.(length := s.length + 1), resetDir).body
            == [NextCell(s.body[0], s.direction)] + s.body
    ensures Move(s.(length := s.length + 1), resetDir).last == s.last
  {
    var g := s.(length := s.length + 1);
    var r := Move(g, resetDir);
    assert r.body == [r.body[0]] + r.body[1..];
  }

  /** A new snake heading right moves one square right and drops its
      starting cell. */
  lemma FirstStepFromCentre(resetDir: Dir)
    ensures Move(Initial, resetDir).body == [(340, 240)]
    ensures Move(Initial, resetDir).last == Some(Centre)
  {
  }

  /** Chasing the tail is not a collision: a four-cell snake going round a
      square moves its head into the cell its tail leaves in the same step. */
  lemma TailChaseIsNoCollision(resetDir: Dir)
    ensures !SelfHit(Snake([(0, 0), (20, 0), (20, 20), (0, 20)], 4, Down, None, None))
    ensures Move(Snake([(0, 0), (20, 0), (20, 20), (0, 20)], 4, Down, None, None), resetDir)
            == Snake([(0, 20), (0, 0), (20, 0), (20, 20)], 4, Down, None, Some((0, 20)))
    ensures !SelfHit(Snake([(0, 20), (0, 0), (20, 0), (20, 20)], 4, Down, None, Some((0, 20))))
  {
    var s := Snake([(0, 0), (20, 0), (20, 20), (0, 20)], 4, Down, None, None);
    assert s.body[1..] == [(20, 0), (20, 20), (0, 20)];
    assert !SelfHit(s);
    assert NextCell((0, 0), Down) == (0, 20);
    var r := Move(s, resetDir);
    assert |r.body| == 4 && r.body[0] == (0, 20) && r.body[1..] == s.body[..3];
    assert r.body == [r.body[0]] + r.body[1..];
    assert r.body[1..] == [(0, 0), (20, 0), (20, 20)];
  }

  /** A curled snake of five cells heading up from (100, 120).
      Its next head is (100, 100), a cell its own body still occupies. */
  const Curled: Snake :=
    Snake([(100, 120), (120, 120), (120, 100), (100, 100), (80, 100)], 5, Up, None, None)

  /** Running into the body is detected one step late: the step that puts
      the head onto the body does not restart the snake, the following step
      does, whichever way it goes. */
  lemma CollisionDetectedOneStepLate(d: Dir, d': Dir)
    ensures !SelfHit(Curled)
    ensures Move(Curled, d).body[0] in Move(Curled, d).body[1..]
    ensures Move(Move(Curled, d), d') == Reset(Move(Curled, d), d')
  {
    var r := Move(Curled, d);
    assert r.body == [(100, 100), (100, 120), (120, 120), (120, 100), (100, 100)];
    assert r.body[1..][3] == r.body[0];
  }
}
