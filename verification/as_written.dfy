/** The movement step with the restart exactly as the program writes it.
    There the body list holds Python values, and the restart stores the
    two centre coordinates as two separate entries instead of one
    coordinate pair. This module shows the consequence: after the first
    self-collision the head is a bare integer and the next step raises
    TypeError when it indexes it. */
module AsWritten {
  import opened Wrappers
  import opened Grid
  import SnakeState

  /** A body entry as the program can hold it: an integer or a coordinate pair. */
  datatype PyValue = PyInt(n: int) | PyPair(x: int, y: int)

  /** The errors the step can raise. */
  datatype PyError = TypeError

  /** The snake fields the movement step reads or writes. */
  datatype RawSnake = RawSnake(
    positions: seq<PyValue>,
    length: int,
    direction: Dir,
    last: Option<PyValue>)

  /** A cell as a Python coordinate pair. */
  function Pair(c: Cell): PyValue
  {
    PyPair(c.0, c.1)
  }

  /** A list of cells as a list of Python coordinate pairs. */
  function PairsOf(cells: seq<Cell>): (r: seq<PyValue>)
    ensures |r| == |cells|
    ensures forall i :: 0 <= i < |cells| ==> r[i] == Pair(cells[i])
  {
    seq(|cells|, i requires 0 <= i < |cells| => Pair(cells[i]))
  }

  /** The raw form of a well-typed snake: every body cell as a pair. */
  function Lift(s: SnakeState.Snake): RawSnake
  {
    RawSnake(PairsOf(s.body), s.length, s.direction,
             if s.last.Some? then Some(Pair(s.last.value)) else None)
  }

  /** The restart as written: the body becomes the two-entry list
      [ScreenWidth / 2, ScreenHeight / 2]. */
  function RawReset(s: RawSnake, d: Dir): (r: RawSnake)
    ensures r.positions == [PyInt(320), PyInt(240)]
    ensures forall i :: 0 <= i < |r.positions| ==> !r.positions[i].PyPair?
    ensures r.length == 1 && r.direction == d && r.last == s.last
  {
    s.(length := 1, positions := [PyInt(ScreenWidth / 2), PyInt(ScreenHeight / 2)], direction := d)
  }

  /** Drops the last body entry into `last` when the body is longer than
      the target length; the pop at the end of the step as written. */
  function RawTrim(s: RawSnake): (r: RawSnake)
    requires |s.positions| > 1 || (|s.positions| == 1 && s.length >= 1)
    ensures |r.positions| > 0
    ensures r.length == s.length && r.direction == s.direction
    ensures |s.positions| > s.length ==> r.last.Some? && r.positions + [r.last.value] == s.positions
    ensures |s.positions| <= s.length ==> r == s
  {
    if |s.positions| > s.length then
      s.(positions := s.positions[..|s.positions| - 1], last := Some(s.positions[|s.positions| - 1]))
    else s
  }

  /** The movement step as written, over raw body entries. Reading the head's
      coordinates fails with TypeError when the head is an integer. */
  function RawMove(s: RawSnake, resetDir: Dir): (r: Result<RawSnake, PyError>)
    requires |s.positions| > 0
    ensures r.Err? <==> s.positions[0].PyInt?
    ensures r.Ok? ==> |r.value.positions| > 0
  {
    var head := s.positions[0];
    match head
    case PyInt(_) => Err(TypeError)
    case PyPair(x, y) =>
      var grown := s.(positions := [Pair(NextCell((x, y), s.direction))] + s.positions);
      Ok(RawTrim(if head in grown.positions[2..] then RawReset(grown, resetDir) else grown))
  }

  /** Pairs are equal exactly when the cells are, so membership carries over. */
  lemma PairsOfMembership(c: Cell, cells: seq<Cell>)
    ensures Pair(c) in PairsOf(cells) <==> c in cells
  {
    if c in cells {
      var i :| 0 <= i < |cells| && cells[i] == c;
      assert PairsOf(cells)[i] == Pair(c);
    }
  }

  /** Converting to pairs commutes with the slice the collision test reads. */
  lemma PairsOfSlices(c: Cell, cells: seq<Cell>)
    requires 0 < |cells|
    ensures ([Pair(c)] + PairsOf(cells))[2..] == PairsOf(cells[1..])
  {
  }

  /** Lifting commutes with dropping the tail. */
  lemma LiftTrim(s: SnakeState.Snake)
    requires |s.body| > 1 || (|s.body| == 1 && s.length >= 1)
    ensures Lift(SnakeState.Trim(s)) == RawTrim(Lift(s))
  {
    if |s.body| > s.length {
      assert PairsOf(s.body[..|s.body| - 1]) == PairsOf(s.body)[..|s.body| - 1];
    }
  }

  /** As long as the snake does not run into itself, the step as written
      does what the corrected model does. */
  lemma RawMoveAgrees(s: SnakeState.Snake, resetDir: Dir)
    requires |s.body| > 0 && !SnakeState.SelfHit(s)
    ensures RawMove(Lift(s), resetDir) == Ok(Lift(SnakeState.Move(s, resetDir)))
  {
    var nc := NextCell(s.body[0], s.direction);
    var grown := s.(body := [nc] + s.body);
    var grownRaw := Lift(s).(positions := [Pair(nc)] + PairsOf(s.body));
    assert Lift(grown) == grownRaw by {
      assert PairsOf([nc] + s.body) == [Pair(nc)] + PairsOf(s.body);
    }
    PairsOfSlices(nc, s.body);
    PairsOfMembership(s.body[0], s.body[1..]);
    assert Pair(s.body[0]) !in grownRaw.positions[2..];
    assert RawMove(Lift(s), resetDir) == Ok(RawTrim(grownRaw));
    assert s.body[0] !in grown.body[2..] by {
      assert grown.body[2..] == s.body[1..];
    }
    assert SnakeState.Move(s, resetDir) == SnakeState.Trim(grown);
    LiftTrim(grown);
  }

  /** After a self-collision the step as written succeeds but leaves the
      single integer 320 as the body and the integer 240 as the dropped
      cell; the very next step then raises TypeError. The corrected model
      instead restarts with the one-cell body [Centre]
      (`SnakeState.Move`, `SnakeState.MovePreservesShape`). */
  lemma CollisionThenCrash(s: SnakeState.Snake, resetDir: Dir, nextDir: Dir)
    requires |s.body| > 0 && SnakeState.SelfHit(s)
    ensures RawMove(Lift(s), resetDir).Ok?
    ensures RawMove(Lift(s), resetDir).value.positions == [PyInt(320)]
    ensures RawMove(Lift(s), resetDir).value.last == Some(PyInt(240))
    ensures RawMove(RawMove(Lift(s), resetDir).value, nextDir) == Err(TypeError)
    ensures SnakeState.Move(s, resetDir).body == [Centre]
  {
    var nc := NextCell(s.body[0], s.direction);
    var grown := [Pair(nc)] + PairsOf(s.body);
    PairsOfSlices(nc, s.body);
    PairsOfMembership(s.body[0], s.body[1..]);
    assert Pair(s.body[0]) in grown[2..];
  }

  /** A concrete run into the bug: the curled snake steps onto its own body,
      the following step restarts it the broken way, and the third step
      raises TypeError. */
  lemma CurledSnakeCrashes(d1: Dir, d2: Dir, d3: Dir)
    ensures var first := SnakeState.Move(SnakeState.Curled, d1);
            && RawMove(Lift(SnakeState.Curled), d1) == Ok(Lift(first))
            && RawMove(Lift(first), d2).Ok?
            && RawMove(RawMove(Lift(first), d2).value, d3) == Err(TypeError)
  {
    SnakeState.CollisionDetectedOneStepLate(d1, d2);
    RawMoveAgrees(SnakeState.Curled, d1);
    CollisionThenCrash(SnakeState.Move(SnakeState.Curled, d1), d2, d3);
  }
}
