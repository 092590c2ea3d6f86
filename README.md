# Terminal snake: a verified model of the game state

This project models the game-state logic of a terminal snake game (`main.py`)
in Dafny and proves properties of it. The snake lives on a `width x height`
grid. It is stored as a head cell, a heading, a map from every occupied cell
to a countdown of the ticks that cell stays occupied, and a length. Once per
tick the game does the following:

- It drains the queue of pending arrow-key presses and keeps only the most recent one.
- It accepts that press only if it turns the snake onto the other axis.
- It moves the head one cell.
- If the new cell is off the board or already occupied, the game ends.
- Otherwise every countdown drops by one, the cells that reach zero are freed,
  and the new head is written with the full length.
- When the head lands on the food, the snake grows by one and new food is
  placed on a free cell.

Modules:

- `Optional` (`optional.dfy`): the `Option` datatype, standing in for Python's `None`.
- `Grid` (`grid.dfy`): `Direction`, `Coordinate` (a value type, so it can key a map),
  the one-cell step `Advance`, board bounds, and a count of the board's cells.
  The count shows that a board that is not full has a free cell.
- `Keys` (`keys.dfy`): decoding one terminal read into an arrow direction.
  Codes 65-68 are the letters of `ESC [ A/B/C/D`; every other code is ignored.
- `Snakes` (`snake.dfy`): the `Snake` class with its in-place `Move` and
  `CountDown`, the queue drain `DrainLatest`, the pure specifications
  (`Turn`, `Countdown`, `Collides`), and the snake invariant `Body`.
  `Body` says:
  - the head is a segment;
  - every segment is on the board;
  - every countdown lies in `1..length`;
  - no two countdowns are equal.
- `Game` (`game.dfy`): the `GameState` class (board, snake, food) with its
  construction, food placement, score and `Step`, plus three small client
  scenarios: a fresh 20 x 15 game, the 8 x 8 boundary, and a forced self-collision.

The key-press queue, which a second thread fills in `main.py`, is replaced
by a `pending: seq<Direction>` argument. It holds the presses queued since the
previous tick. The `GameOver` exception becomes the `GameOver` variant of
`MoveOutcome`. The `ValueError` for a small board becomes the `None` result of
`GameState.Create`.

A failed move is commonly described as leaving the state unchanged. The model
follows the code instead. In the code, the heading has already been updated
before `GameOver` is raised (main.py:91, 97, 113). So `Snake.Move` and `GameState.Step` promise that
head, fields, length and food are unchanged on game over, but the heading is
the turned one.

## Model

| member | source | states |
|---|---|---|
| `Grid.Advance` | main.py:99-106 | the moved head is at Manhattan distance 1 from the old head, on the same row exactly when the heading is horizontal, and with a smaller x + y exactly for Up and Left (Up is y-1, Down y+1, Left x-1, Right x+1) |
| `Grid.AdvanceOpposite` | main.py:99-106 | stepping along the opposite heading undoes a step; the opposite heading is on the same axis and differs from the original |
| `Grid.CellsSize` | main.py:155-157 | the board from which food is drawn has exactly width * height cells |
| `Grid.FreeCellExists` | main.py:153-160 | if fewer cells are occupied than the board has, some in-bounds cell is free, so the food rejection loop can end |
| `Keys.LastCode` | main.py:42-45 | a read of three characters yields its last character's code, a read of one character yields that character's code, and any other read yields no code |
| `Keys.DirectionForCode` | main.py:47-52 | a code maps to a direction exactly when it is 65..68, and then the direction's arrow code is that code |
| `Keys.ArrowCodeRoundTrip` | main.py:47-52 | the table is a bijection between the four directions and the codes 65 (Up), 66 (Down), 67 (Right), 68 (Left) |
| `Keys.DecodeKey` | main.py:42-58 | a read is an arrow key exactly when its code is 65..68; any other code is ignored, never an error; a read of a length other than 1 or 3 has no code |
| `Keys.EscapeSequenceDecodes` | main.py:40-55 | the escape sequence ESC '[' letter of each arrow key decodes to that key's direction |
| `Snakes.DrainLatest` | main.py:78-84 | draining the pending presses yields none for an empty queue and otherwise the last press queued |
| `Snakes.NoReversal` | main.py:86-97 | a reversal or a repeat of the current heading leaves the heading unchanged; any request changes the heading exactly when it is perpendicular |
| `Snakes.LatestRequestOnly` | main.py:78-97 | heading Right, the queue [Down, Left] keeps Right (only Left counts, and it is a reversal), [Up] turns Up, and an empty queue keeps Right |
| `Snakes.SegmentCount` | main.py:119-128 | pairwise distinct countdowns in 1..n leave room for at most n segments, so the snake never covers more than `length` cells |
| `Snakes.TickKeepsBody` | main.py:108-128 | a tick that does not collide keeps the snake invariant, gives the new head the countdown `length` and leaves at most `length` segments |
| `Snakes.SegmentLifetime` | main.py:119-126 | a segment written with countdown v holds v - n after n countdowns, stays for exactly v - 1 of them and is gone at the v-th |
| `Snakes.TailLeaves` | main.py:115-128 | over a run of non-colliding ticks, a segment that no later head overwrites is present after n ticks exactly when n is below its written countdown v, then holds v - n, and agrees with the bare countdown repeated n times |
| `Snakes.Snake.constructor` | main.py:70-75 | a snake holds exactly the given head, heading, fields and length |
| `Snakes.Snake.CountDown` | main.py:117-126 | in place, every segment's countdown drops by one and exactly the segments that reach zero are deleted |
| `Snakes.Snake.Move` | main.py:77-128 | the heading becomes the turned one for the latest press; game over happens exactly when the moved head is off the board or already a segment, and then head and fields are unchanged; otherwise the head is the moved cell, the fields are the counted-down old fields plus the head with countdown `length`, the length is unchanged, and the snake invariant is kept |
| `Game.GameState.constructor` | main.py:137-151 | a board with both sides at least 8 starts with head (4,2) heading Right, fields {(2,2):1, (3,2):2, (4,2):3}, length 3, score 0, and food on a free in-bounds cell |
| `Game.GameState.Create` | main.py:133-151 | construction fails exactly when the width or height is below 8, and otherwise yields the start state |
| `Game.GameState.Score` | main.py:162-163 | the score is length - 3; with the constructor and `Step` it is 0 at the start and goes up by exactly 1 when a step eats the food |
| `Game.GameState.NewFoodCoordinate` | main.py:153-160 | the food cell returned is on the board and not a segment of the snake |
| `Game.GameState.Step` | main.py:191-196 | the snake moves as in `Move`; game over leaves length and food unchanged; eating the food grows the length and the score by exactly 1 and leaves the head's countdown at length - 1; otherwise length and food are unchanged; in every case the board invariant holds, so the food is in bounds and off the snake |

## Left out

- Terminal handling is not modelled: raw (cbreak) mode setup and restore, `os.read`, byte decoding and the diagnostic print for an ignored key (main.py:34-41, 58, 60-61, 217-219). Only the choice of code from a read and the code table are modelled.
- Keys.DecodeKey: when a read is neither one nor three characters long, `ord` raises `TypeError` and the input thread ends. This is modelled only as the `Unreadable` outcome; the thread ending is not modelled.
- The input thread, `wait_for_key_loop` and the global `queue.Queue` are not modelled (main.py:6, 11, 64-67, 200-201). The presses drained at a tick are a `seq<Direction>` argument instead.
- Rendering (`GameState.show`, main.py:165-189) is print formatting only and is not modelled.
- The main loop with its 100 ms `sleep`, the "Game over." message and `exit` (main.py:199-220) is not modelled.
- `randint` is not modelled (main.py:155-156). A draw is a nondeterministic choice among the free in-bounds cells, so the uniform distribution is not modelled.
- Game.GameState.NewFoodCoordinate: requires that a free cell exists. The source loops forever on a full board.
- Game.GameState.Step: requires that a tick which eats the food leaves fewer segments than the board has cells. Otherwise the source's food loop never ends; that full-board case is not modelled.
- Snakes.Snake.Move: promises the snake invariant afterwards only when it held before. The source does not check the invariant itself.
