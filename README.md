# Snake: a verified model of the simulation core

This project models the simulation core of `snake.cpp`, a terminal snake game
played on a `B_SIZE` x `B_SIZE` board (10 x 10 by default) whose edges wrap
around. The model covers:

- the table of the four directions;
- the pickup and its relocation (`Pickup::move`);
- the snake: its constructor, the per-tick `move` with its tail-to-head walk,
  the wrapped new head, the self-collision check (`checkDeath`) and the
  tail-based food check (`checkForFood`);
- `countSnake`;
- the key handling of `processInput`.

The project has three modules:

- `Grid` (`grid.dfy`): the board size and the direction table. It also writes
  out C++'s truncating `%`, and proves that the program's
  `(B_SIZE + (v % B_SIZE)) % B_SIZE` is the mathematical remainder for every
  `v`.
- `Rules` (`rules.dfy`): the game as values. A `World` holds the body's cells
  from head to tail, the direction, the `justAte` and `dead` flags, and the
  pickup's cell. `Tick` is one call of `move`, and `Steer` is `processInput`
  once the key is known. `Play` runs a sequence of turns (`processInput`, then
  `move`) until `move` reports a collision. The lemmas cover segment movement,
  exactly when a collision happens, growth by exactly one segment on the
  pickup's cell, preserved invariants, the length invariant over a whole game,
  and worked examples.
- `SnakeGame` (`snake.dfy`): the program's objects. `Pickup` has the `x` and
  `y` fields, which are static in the program, so one shared object stands for
  them. `Snake` keeps its body in a `seq` field, head first, along with
  `direction`, `justAte` and `dead`. Its methods update those fields in place
  with the program's loops. Each method is proved against the `Rules` function
  it implements, for example `Snake.Move` against `Rules.Tick`.

Two behaviours of the code that are easy to miss:

- **Food is detected at the tail.** A one-segment snake whose head steps onto
  the pickup grows in that same step, because `checkForFood` compares the
  tail, which is the head (`snake.cpp:94`). See `Rules.FirstStepOntoPickup`.
- **The quit key does not end the game.** Any key other than an arrow key only
  sets `dead` (`snake.cpp:193-195`). That freezes the direction
  (`snake.cpp:177-179`), but `move` never reads `dead`, and the main loop stops
  only when `move` reports a collision (`snake.cpp:275-279`). See
  `Rules.QuitKeyDoesNotEndGame` and `Rules.TickIgnoresDead`.

## Model

| member | source | states |
|---|---|---|
| Grid.CppRem | snake.cpp:114-115 | The C++ remainder for a positive divisor lies strictly between -n and n and has the sign of the dividend. |
| Grid.CppRemCongruent | snake.cpp:114-115 | The C++ remainder differs from the dividend by a multiple of the divisor, so together with `Grid.CppRem`'s range and sign it is the truncating remainder. |
| Grid.WrapCoord | snake.cpp:114-115 | The normalisation `(n + (v % n)) % n` in C++ arithmetic always lands in `[0, n)`. |
| Grid.WrapCoordIsMod | snake.cpp:114-115 | The coordinate normalisation of `move` equals the mathematical `v % n` and lies in `[0, n)`, for every coordinate and board size. |
| Grid.WrapAtEdges | snake.cpp:114-115 | Leaving the last column or row by +1 re-enters at 0; leaving 0 by -1 re-enters at n-1. |
| Rules.Relocate | snake.cpp:45-49 | A relocated pickup is always on the board. |
| Rules.RelocateReachesEveryCell | snake.cpp:45-49 | Every cell of the board is a possible pickup position for some pair of draws. |
| Rules.NextHead | snake.cpp:114-115 | The head's next cell is on the board and is the old cell plus the direction offset, reduced modulo the board size on each axis. |
| Rules.Shift | snake.cpp:117-130 | The walk and the head assignment keep the segment count and put the head on its new cell. |
| Rules.Moved | snake.cpp:112-130 | The walk changes neither the direction, the quit flag nor the pickup. |
| Rules.HeadCollides | snake.cpp:140-149 | The collision test holds exactly when the head's cell occurs among the segments behind it, so a single segment never collides. |
| Rules.Feed | snake.cpp:91-103 | When the tail is on the pickup, the body keeps its cells and gains one segment on the pickup's cell, the growth flag is set and the pickup relocates. Otherwise the state is unchanged. Direction and quit flag are never touched. |
| Rules.Tick | snake.cpp:112-135 | One move never shortens the body. |
| Rules.ShiftIsPushPop | snake.cpp:117-130 | When any pending growth sits on a doubled tail, the body after the walk is the new head followed by the old body minus its last cell. |
| Rules.TickMovesSegments | snake.cpp:112-135 | The head moves to its wrapped next cell. Each later segment takes its head-ward neighbour's old cell, except a pending-growth tail, which stays put. The direction and quit flag are unchanged. When no food is eaten (or the move collides), the growth flag survives only on a one-segment snake, whose tail the walk never visits. |
| Rules.TickCollision | snake.cpp:131-132 | On a reachable state, `move` returns true exactly when the new head lands on a cell the old body held, the last cell excepted. |
| Rules.TickGrowth | snake.cpp:91-103 | A collision skips food. Otherwise the body grows by exactly one segment, on the pickup's cell, exactly when the new last cell is the pickup's cell. The flag is then set and the pickup relocates on the board. Otherwise count and pickup are unchanged and the flag is clear. |
| Rules.TickPreservesWellFormed | snake.cpp:117-134 | One move keeps the body non-empty and keeps a pending growth on a doubled tail. |
| Rules.TickKeepsOnBoard | snake.cpp:112-135 | One move keeps every segment and the pickup on the board. |
| Rules.TickIgnoresDead | snake.cpp:112-135 | The result and new state of `move` do not depend on the quit flag. |
| Rules.ReversalIntoNeckDies | snake.cpp:131-132 | A snake of three or more segments that steps onto its neck dies, with count and pickup unchanged. |
| Rules.TwoSegmentReversalSurvives | snake.cpp:117-132 | A two-segment snake with no pending growth that steps onto its neck survives, because its tail vacates that cell in the same move. |
| Rules.EdgeWraps | snake.cpp:114-115 | From any cell on the board, right from the last column re-enters at column 0, left from column 0 at the last column, up from row 0 at the last row, and down from the last row at row 0, staying in the same row or column. |
| Rules.FirstStepOntoPickup | snake.cpp:94 | A one-segment snake at (5,5) heading right onto a pickup at (6,5) grows at once to two segments on (6,5). On the next move the head goes to (7,5) and the second segment stays on (6,5). |
| Rules.Steer | snake.cpp:175-197 | ERR, or any key while dead, changes nothing. Each arrow key selects its table entry. Any other key sets the quit flag and keeps the direction. The flag is set afterwards exactly when it was set before or the key was not an arrow. |
| Rules.SteerKeepsUnitDirection | snake.cpp:23-26 | Starting in the table, the direction stays in the table, a unit step along exactly one axis. |
| Rules.Play | snake.cpp:275-279 | A game never shortens the body, eats at most one pickup per turn, and ends by collision only after at least one turn. |
| Rules.PlayLength | snake.cpp:247-253 | From any state with a head and over any sequence of turns, the final body length is the initial length plus the number of pickups eaten. |
| Rules.PlayAfterQuit | snake.cpp:177-179 | Once the quit flag is set, it stays set and the direction never changes for the rest of the game. |
| Rules.QuitKeyDoesNotEndGame | snake.cpp:193-195 | A fresh snake given the quit key on its first turn is flagged dead, yet the game does not end and the snake moves on to (6,5). |
| SnakeGame.Pickup.constructor | snake.cpp:38-40 | Construction places the pickup where one relocation puts it. |
| SnakeGame.Pickup.Move | snake.cpp:45-49 | The pickup's new cell is the relocation of the two draws, on the board. |
| SnakeGame.Snake.constructor | snake.cpp:79-89 | A new snake is a single segment at (x, y), heading right, with `justAte` and `dead` false. |
| SnakeGame.Snake.CheckForFood | snake.cpp:91-103 | The new snake and pickup state is exactly `Rules.Feed` of the old state, and the body stays non-empty. |
| SnakeGame.Snake.Move | snake.cpp:112-135 | The returned flag and the new snake and pickup state are exactly `Rules.Tick` of the old state; the loop invariant ties each segment to its moved cell. |
| SnakeGame.Snake.CheckDeath | snake.cpp:140-149 | Returns true exactly when some segment behind the head shares the head's cell. |
| SnakeGame.Snake.CountSnake | snake.cpp:154-162 | Returns the number of segments. |
| SnakeGame.ProcessInput | snake.cpp:171-198 | The new direction and quit flag are `Rules.Steer` of the old ones and the key; body and growth flag are untouched. |
| SnakeGame.GameStep | snake.cpp:247-253 | One turn, `processInput` then `move`, produces exactly the `Rules.Tick` of the steered state, with the game-over result that `move` returns. |

## Left out

- Terminal I/O (`printBoard`, `gameOver`, curses setup in `main`, `sleep`): these are display and pacing only. The key `getch` would return is a `Key` parameter, with `NoInput` standing for `ERR`.
- `srand`/`rand`: randomness is an input. Each relocation takes a `Draw` of two non-negative numbers, as `rand()` returns.
- The linked segment chain: the doubly linked `SnakeSegment` list is modelled as a sequence, head first, so `prev` and `next` are the neighbouring indices. The link rewiring of `checkForFood` is the append. The model therefore says nothing about aliasing, allocation, or the links of the first segment, which the program leaves uninitialised.
- Memory management: the program never frees its segments or its board rows.
- SnakeGame.Snake.constructor: coordinates are unbounded integers, so the 32-bit overflow of `head->x + dx` for a head at `INT_MAX` is not modelled. The program only constructs its snake at the board's centre.
- Grid.BSize: the board size is fixed at the default `B_SIZE` of 10. The wrap-around lemmas in `Grid` hold for every positive size.
- The `Pickup` parameter of `checkForFood` and `move` is passed by value in the program. Only its static fields are used, so one shared `Pickup` object models it.
