# Snake game state, modelled in Dafny

This project models the game-state logic of a small pygame snake game
(`the_snake.py`). The screen is 640 x 480 pixels, split into 20-pixel squares, and
its edges wrap round. A snake moves one square per tick, buffers at most one turn
requested from the keyboard, grows when it reaches the apple, and restarts from the
centre when it runs into itself.

Every piece of state is an immutable value and every operation is a pure function.
Each random choice is passed in as a parameter:

- `Grid` (`grid.dfy`): the screen constants, the four directions and `NextCell`. `NextCell` is the wrapping step `(x + dx*20) % 640`, `(y + dy*20) % 480`. Dafny's `%` with a positive divisor matches Python's here.
- `Apple` (`apple.dfy`): `RandomizePosition` turns a drawn column and row into pixels. `Accident` is the list-membership test.
- `SnakeState` (`snake.dfy`): the `Snake` record, which holds the body (head first), the target length, the direction, the buffered turn and the last dropped cell. It also holds `GetHead`, `UpdateDirection`, `Reset`, `Trim` and `Move`.
- `Input` (`input.dfy`): key events, the rule that rejects a reversing arrow key, and the handling of one frame's event queue.
- `Game` (`game.dfy`): one iteration of the main loop (`Tick`). It runs keys, turn, move, then eating. `Run` is a finite sequence of ticks.
- `AsWritten` (`as_written.dfy`): the restart exactly as the program writes it (see Findings).
- `Wrappers` (`wrappers.dfy`): `Option` and `Result`.

Some of the program's behaviour is easy to misread. The model keeps it as written:

- The apple is placed on any grid square. It is never re-drawn to avoid the snake.
- The restart does not clear the buffered turn or the last dropped cell.
- The collision test asks whether the head from BEFORE the step occurs at index 2 or later of the extended body. That is the same as asking whether it overlapped the rest of the old body. So a step that puts the head onto the body is not a collision. The following step restarts the snake, whichever way it moves (`SnakeState.CollisionDetectedOneStepLate`).
- Moving into the cell that the tail leaves in the same step is not a collision. A four-cell snake circling a square shows this (`SnakeState.TailChaseIsNoCollision`).
- Eating tests whether the apple lies on ANY body cell, not only on the head.
- The reversal test compares a key with the current direction, not with the buffered one. Several keys in one frame can therefore each be accepted. The last accepted key wins (`Input.HandleKeysMeaning`).

## Model

| member | source | states |
|---|---|---|
| Grid.Reverse | the_snake.py:219-226 | the direction a key may not request is the one whose vector is the negation of the current one |
| Grid.ReverseInvolutive | the_snake.py:219-226 | the reversal rule is symmetric: the reverse of the reverse is the original direction |
| Grid.NextCell | the_snake.py:160-163 | the new head is on screen and congruent, on each axis, to the unwrapped neighbour; a grid-aligned head stays grid-aligned |
| Grid.NextCellInterior | the_snake.py:160-163 | away from the edges the step is plain vector addition |
| Grid.NextCellWraps | the_snake.py:161-162 | leaving left at x = 0 gives x = 620, up at y = 0 gives y = 460, and symmetrically on the right and bottom edges |
| Grid.NextCellReverse | the_snake.py:160-163 | stepping back the reverse way returns to the starting cell |
| Grid.NextCellMoves | the_snake.py:160-163 | a step never leaves the head where it was |
| Apple.RandomizePosition | the_snake.py:101-104 | the apple lands on a grid square of the screen, in the drawn column and row |
| Apple.RandomizeCoversGrid | the_snake.py:103-104 | every grid square can be drawn |
| Apple.RandomizeInjective | the_snake.py:103-104 | different draws give different squares |
| Apple.Accident | the_snake.py:71-79 | the scan reports a collision exactly when the position is a member of the list |
| SnakeState.GetHead | the_snake.py:197-199 | the body is the head followed by the rest of the body, and the head is on a grid square for a well-shaped snake (an accessor: what the head becomes after a step is stated by `SnakeState.Move`) |
| SnakeState.UpdateDirection | the_snake.py:148-152 | a buffered turn becomes the direction and the buffer empties; with an empty buffer nothing changes |
| SnakeState.UpdateNeverReverses | the_snake.py:148-152 | taking a buffered turn that was accepted never reverses the snake |
| SnakeState.UpdateIdempotent | the_snake.py:148-152 | taking the turn twice is the same as taking it once |
| SnakeState.Reset | the_snake.py:201-207 | the restarted snake is one cell at the centre with target length one and the chosen direction; the buffered turn and the dropped cell are kept |
| SnakeState.Trim | the_snake.py:172-173 | when the body is longer than the target, the dropped cell appended back to the shortened body gives the old body; otherwise nothing changes |
| SnakeState.Move | the_snake.py:154-173 | the snake restarts exactly when the old head overlapped the old body; otherwise the new head is the wrapped neighbour, followed by the old body, with the tail dropped into `last` exactly when the body had reached its target length |
| SnakeState.CollisionTrigger | the_snake.py:170-171 | the old head occurs at index 2 or later of the extended body iff it occurred after index 0 of the old body |
| SnakeState.MovePreservesShape | the_snake.py:154-173 | a move keeps every body cell and the dropped cell on grid squares, and leaves the body size equal to the target length |
| SnakeState.MoveKeepsSize | the_snake.py:172-173 | a body at its target size keeps it, and the old tail becomes the dropped cell |
| SnakeState.GrowThenMove | the_snake.py:167-173 | after the target length grows by one, the next step adds the new head, keeps the whole old body and drops nothing |
| SnakeState.FirstStepFromCentre | the_snake.py:141-146 | a new snake moves to (340, 240) and drops the centre |
| SnakeState.TailChaseIsNoCollision | the_snake.py:167-173 | a four-cell snake circling the top-left square steps onto the cell its tail leaves, without restarting, and its head does not overlap its body afterwards |
| SnakeState.CollisionDetectedOneStepLate | the_snake.py:167-171 | the step that puts the head onto the body does not restart the snake; the next step does, whatever the direction |
| Input.KeyDirection | the_snake.py:219-226 | exactly the four arrow keys request a direction |
| Input.RequestDirection | the_snake.py:218-226 | an arrow key is buffered iff it does not reverse the current direction; nothing else changes, and a buffer that respects the direction keeps respecting it |
| Input.HandleKeys | the_snake.py:211-226 | the program quits iff the frame holds a quit event; otherwise only the turn buffer changes |
| Input.HandleKeysMeaning | the_snake.py:214-226 | without a quit event the buffer ends up holding the last accepted arrow key of the frame, or what it held before if none was accepted |
| Input.LastAcceptedSafe | the_snake.py:219-226 | the last accepted key never reverses the current direction |
| Input.FrameNeverReverses | the_snake.py:211-226 | whatever keys a frame holds, the turn taken next never reverses the snake |
| Input.RequestThenUpdate | the_snake.py:219-226 | one arrow key, then taking the turn, sets the direction to that key's, or keeps the old one if the key would reverse it |
| Game.Start | the_snake.py:233-234 | the game starts valid: a one-cell snake at the centre heading right with no buffered turn and no dropped cell, and the apple on the drawn grid square |
| Game.Feed | the_snake.py:240-242 | the target length grows by one and the apple moves to the drawn square exactly when the apple lies on a body cell |
| Game.Tick | the_snake.py:235-242 | a tick ends the program iff the frame holds a quit event |
| Game.TickPreservesValid | the_snake.py:235-242 | a tick keeps the body on grid squares, its size at the target length or one below, the turn buffer empty and the apple on a grid square |
| Game.TickWithoutCollision | the_snake.py:235-242 | without a collision the snake heads the last accepted key's way (never the reverse), steps once, is at the old target size, and grows iff the apple is under it |
| Game.TickWithCollision | the_snake.py:235-242 | a collision restarts the snake at the centre with the drawn direction, and the apple is eaten only if it sits on the centre |
| Game.Run | the_snake.py:214-242 | a finite run ends the program iff some frame holds a quit event |
| Game.RunPreservesValid | the_snake.py:235-242 | any number of ticks without quitting keeps the state valid |
| AsWritten.RawReset | the_snake.py:204-207 | the restart as written makes the body the two bare integers 320 and 240 (no coordinate pair), sets length 1 and the drawn direction, and keeps the dropped entry |
| AsWritten.RawTrim | the_snake.py:172-173 | the pop as written: when the body is longer than the target, the dropped entry appended back to the shortened body gives the old body; otherwise nothing changes |
| AsWritten.RawMove | the_snake.py:154-173 | the step as written raises TypeError iff the head is a bare integer, and otherwise leaves a non-empty body |
| AsWritten.RawMoveAgrees | the_snake.py:154-173 | without a collision the step as written equals the corrected step |
| AsWritten.CollisionThenCrash | the_snake.py:204-205 | after a collision the body as written is the single integer 320, the dropped entry is 240, and the next step raises TypeError |
| AsWritten.CurledSnakeCrashes | the_snake.py:205 | a concrete five-cell snake reaches the TypeError within three steps |

## Findings

| source | as written | input that shows it | evidently intended | confidence | as-written member | corrected member |
|---|---|---|---|---|---|---|
| the_snake.py:205 | the restart sets the body to the two integers 320 and 240, not to one coordinate pair | `SnakeState.Curled`: a five-cell snake heading up from (100, 120) steps onto its own body and then collides | a one-cell body holding the centre pair, as the constructor builds it | high; not executed | AsWritten.CollisionThenCrash | SnakeState.MovePreservesShape |

In the program as written, the same step then drops 240 into `last` and leaves `[320]` as the body. The next step fails at `head[0]`. Drawing is not modelled, and it probably fails even earlier, because it reads the head as a pair. The rest of the model uses the corrected restart.

## Left out

- Window, clock and event polling: `pygame.init`, `set_mode`, `set_caption`, `Clock.tick`, `display.update` and `pygame.quit`. These are I/O and frame timing. A frame's events are a parameter, and a quit event ends `Tick` with `None`.
- Drawing: every `draw` method and the screen fill in `reset`. They only render.
- The constructors' `position` parameter. `main` always builds the snake at the default centre, which `SnakeState.Initial` fixes. The apple's `position` is overwritten at once by `randomize_position` (the_snake.py:98).
- The `object` attribute. It is never read.
- The `body_color` parameter and the colour constants. They affect only drawing.
- The random generator: `randint` and `choice`. Their results are the `Dice` parameters, restricted to the ranges the program draws from.
- The endless `while True` loop. `Run` covers any finite number of ticks.
