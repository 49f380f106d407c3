# Snake on a 16×16 board, modelled in Dafny

This project models the game logic of a small terminal Snake game written in C (`game.c`).
The snake lives on a 16×16 board with coordinates 1..16 on both axes. Its body is an
array of up to 256 segments, head first. It also has a velocity and a length. The game
also keeps one apple and a game-over flag. The model covers:

- one tick of the game (`updateSnake`): the body shifts, the head moves, collisions
  with the wall or with the snake's own body raise the game-over flag, and the snake
  grows when its head is on the apple;
- apple placement (`placeApple`);
- start-up (`init`);
- one key press of the input reader (the `switch` in `checkKeys`);
- the board that `draw` prints.

Files and modules:

- `board.dfy`, module `Board`: board constants, points, `comparePoints`, and a
  pigeonhole argument over the board's 256 cells.
- `keys.dfy`, module `Keys`: one key press as a pure function on the velocity and
  the game-over flag, and a run of key presses.
- `snake.dfy`, module `Snake`: the whole game state as a value, one tick as the pure
  function `Tick`, and the invariants that ticks and key presses keep.
- `render.dfy`, module `Render`: the glyph of each cell and the lines of the board.
- `game.dfy`, module `Game`: class `Game`, holding the C globals `snake`, `apple`
  and `gameOver` as fields that its methods update in place. The segments are an
  `array<Point>` of capacity 256. `UpdateSnake` shifts them with the same descending
  loop as the C code. Each method is proved against the pure functions above.
  `UpdateSnake` ends in the state `Tick(old state, new apple)`. `CheckKey` computes
  `PressKey`. `Draw` returns `Render.Screen`.

Each C segment is a separately allocated `Point`, so no two segments share storage.
The model therefore stores segments as values. `UpdateSnake` and `CheckKey` each stand
for one section of the C code that runs under the game's lock. `MoveSnake`,
`CheckCollisions`, `SelfCollision`, `AddTail` and `PlaceApple` are parts of those
sections. `init` runs before the input thread starts, so it needs no lock. `Draw` is
taken as one atomic step, although `draw` takes the lock once per cell and reads the
apple outside it. This is sound because the only other thread, the input reader,
writes only the velocity and the game-over flag, and `draw` reads neither.

The model keeps two behaviours of `game.c` that a reader might not expect:

- A new tail segment copies the last segment *after* the shift, not the old tail.
  So right after growth the last two segments share a cell
  (`Snake.GrowthRepeatsShiftedTail`).
- Growth does not depend on the game-over flag. In a running game this shows when
  `q` is read after the main loop has tested the flag but before `updateSnake` runs:
  that tick still moves the snake onto the apple and grows it
  (`Snake.QuitThenTickStillGrows`). A tick that ends the game by self-collision
  would also grow the snake if the head were on the apple (`Snake.CollisionStillGrows`).
  That case needs the apple on the snake, so a game started by `init` never reaches
  it. Below full length the apple stays off the snake whenever each placement picks
  a free cell (`Snake.RunKeepsAppleFree`). So no tick both eats and hits the body
  (`Snake.FairRunNeverEatsIntoItself`).

Two consequences were proved.

- Apple placement always has a free cell, even at full length. When the snake
  grows, its last two segments coincide. So at most 255 of the 256 cells are
  occupied (`Snake.FreeCellAfterGrowth`). `UpdateSnake` therefore needs no
  precondition about free cells.
- The reversal guard looks only at the current velocity. Pressing `w` then `a`
  between two ticks turns a right-moving snake to the left (`Keys.TwoPressesCanReverse`).
  For a snake of three or more segments, the next tick puts the head on the cell its
  second segment held, now the third segment's, and the game ends
  (`Snake.TwoPressesThenTickHitsNeck`). A two-segment snake survives, because its
  second segment has moved on (`Snake.TwoPressesShortSnakeSurvives`). With at most one key press after a tick
  that left the head one step ahead of its second segment, this cannot happen
  (`Snake.OnePressSparesNeck`).

## Model

| member | source | states |
|---|---|---|
| `Board.ComparePoints` | game.c:29-31 | two points compare equal exactly when both coordinates agree |
| `Board.AllCells` | game.c:37-38 | the board has 16·16 cells, all with coordinates in 1..16 |
| `Board.FreeCellExists` | game.c:35-46 | if a snake occupies fewer distinct cells than the board has, some in-bounds cell is free, so the rejection-sampling loop can succeed |
| `Keys.KeyDirection` | game.c:108-111 | `w`, `s`, `a` and `d` each ask for a unit step along one axis |
| `Keys.PressKey` | game.c:106-112 | `q` sets the flag and keeps the velocity; other non-movement keys change nothing; a movement key keeps the flag and never leaves the velocity equal to the negation of the one before; a unit velocity stays a unit velocity; from a unit velocity, a movement key turns to its direction unless that direction is the reverse, in which case the velocity stays |
| `Keys.PressKeyIdempotent` | game.c:108-111 | pressing a key twice has the same effect as pressing it once; in particular the key for the direction already held changes nothing |
| `Keys.TwoPressesCanReverse` | game.c:108-110 | from velocity (1,0), pressing `w` and then `a` gives (-1,0), the reverse of the starting velocity |
| `Keys.PressAll` | game.c:103-112 | a run of key presses without movement keys leaves the velocity unchanged and sets the flag exactly when it was set or `q` is among the keys |
| `Keys.PressAllKeepsDirection` | game.c:103-112 | over any run of key presses, a unit velocity stays a unit velocity, and the game is over afterwards exactly when it was already over or `q` was pressed |
| `Snake.Initial` | game.c:53-60 | the start state is not over, has its head in bounds, and meets the invariant every reachable state keeps: length within 1..256, a unit velocity, a connected body |
| `Snake.Advance` | game.c:123-131 | the shifted body keeps its length; its head is the old head plus the velocity, and each later segment is the old segment in front of it |
| `Snake.HitsItself` | game.c:139-141 | the reference definition of the self-collision test that `Game.Game.SelfCollision` is proved against: some segment after the head is on the head's cell |
| `Snake.Grow` | game.c:144-148 | growth keeps every segment, appends one copy of the last one, and so covers exactly the same cells as before |
| `Snake.Tick` | game.c:120-153 | a tick keeps the velocity, never shortens the snake, grows it by at most one, never clears the flag, moves the apple to the placed cell when the snake grows, and keeps the apple otherwise |
| `Snake.TickMovesBody` | game.c:123-131 | after a tick, each `body[i]` with `1 ≤ i < old length` is the old `body[i-1]`; the head is the old head plus the velocity; the velocity is unchanged |
| `Snake.TickGameOver` | game.c:133-141 | after a tick the flag is set exactly when it was already set, or the new head has x or y outside 1..16, or the new head equals some new `body[i]` with `1 ≤ i < old length`; a tick never clears it |
| `Snake.TickGrowth` | game.c:143-150 | when the new head is on the apple and length < 256, the length rises by exactly 1, the new last segment equals the shifted last segment, and the apple moves to the placed cell; otherwise length and apple are unchanged; the game-over flag plays no part |
| `Snake.FreeCellAfterGrowth` | game.c:143-149 | right after growth some in-bounds cell is free of the snake, even at length 256, so the `placeApple` call always has a cell to find |
| `Snake.TickKeepsWellFormed` | game.c:143-148 | a tick keeps 1 ≤ length ≤ 256, never shortens the snake, grows it by at most one, and never clears the game-over flag |
| `Snake.TickKeepsConnected` | game.c:123-148 | with a unit velocity, a tick keeps every two consecutive segments on the same or neighbouring cells |
| `Snake.TickSparesNeck` | game.c:124-131 | the new head lands on the cell the second segment held before the tick exactly when the velocity points from the head to that segment |
| `Snake.OnePressSparesNeck` | game.c:106-131 | if the head is one unit step ahead of the second segment in the direction of travel, then after any single key press the next tick does not put the head back on that segment's cell |
| `Snake.TwoPressesThenTickHitsNeck` | game.c:108-141 | every snake of three or more segments heading right, with its head one step ahead of its second segment, after `w`, `a` and one tick has its head on the cell the second segment held, and the game is over |
| `Snake.TwoPressesShortSnakeSurvives` | game.c:108-141 | snake (5,5),(4,5) heading right, after `w`, `a` and one tick, is (4,5),(5,5) and the game is not over |
| `Snake.TickKeepsAppleFree` | game.c:143-150 | an apple that is off the snake stays off it across a tick below full length, provided that, on a tick where the snake eats, the placed cell is off the grown body |
| `Snake.Apply` | game.c:106-153 | a key press never moves the snake or the apple; neither a key press nor a tick shrinks the snake, grows it by more than one, or clears the flag |
| `Snake.RunStep` | game.c:102-153 | a key press or a tick keeps the game invariant: length within 1..256, unit velocity, connected body; it never shortens the snake or clears the flag |
| `Snake.Run` | game.c:155-171 | after a run of events the snake has not shrunk and has at most one segment more per event |
| `Snake.RunKeepsGood` | game.c:155-171 | over any interleaving of key presses and ticks, the game invariant holds throughout, the snake never shrinks, and a finished game stays finished |
| `Snake.RunFromInitial` | game.c:50-63 | the start state satisfies the game invariant, and every run from it keeps 1 ≤ length ≤ 256, a unit velocity and a connected body |
| `Snake.FirstTick` | game.c:120-131 | with the apple elsewhere, the first tick after start moves the single segment from (4,8) to (5,8) and changes nothing else |
| `Snake.GrowthRepeatsShiftedTail` | game.c:144-148 | snake (5,5),(4,5),(3,5) moving right onto the apple at (6,5) becomes (6,5),(5,5),(4,5),(4,5) |
| `Snake.RunKeepsAppleFree` | game.c:33-47 | over any run whose apple placements pick cells off the grown body, the apple stays off the snake whenever the snake is below full length |
| `Snake.EatingNeverCollides` | game.c:138-150 | with the apple off the snake, no tick both eats and hits the body |
| `Snake.FairRunNeverEatsIntoItself` | game.c:50-63 | in a game started by `init` whose placements pick free cells, after any run no tick both eats and hits the body |
| `Snake.QuitThenTickStillGrows` | game.c:107-150 | after `q`, a tick onto the apple still grows the snake and moves the apple; the flag stays set |
| `Snake.CollisionStillGrows` | game.c:138-150 | a tick whose head hits the body on the apple's cell sets the flag and still grows the snake and moves the apple; the start state has the apple on the snake, which a game started by `init` with free placements never reaches |
| `Render.Glyph` | game.c:75-94 | a cell shows `O` exactly when it is the head's cell, `o` exactly when another segment but not the head is on it, `@` exactly when it is the apple's cell and no segment is on it, and `.` exactly when it is empty |
| `Render.Row` | game.c:74-96 | each printed line has 16 glyphs plus the newline |
| `Render.Screen` | game.c:73-97 | `draw` prints 16 lines |
| `Render.ScreenAt` | game.c:73-97 | line y shows, in column x, the glyph of cell (x, y), and its 17th character is the newline |
| `Render.ScreenShowsHeadAndApple` | game.c:79-94 | with the head and the apple in bounds and the apple off the snake, the head's cell shows `O`, the apple's cell shows `@`, and no other cell shows `O` |
| `Game.Game.Init` | game.c:50-63 | start state: one segment at (4,8), velocity (1,0), flag clear, apple in bounds and not on the snake |
| `Game.Game.PlaceApple` | game.c:33-47 | given a free cell, the apple ends in bounds and off every segment `body[0..length)`; only the apple changes |
| `Game.Game.CheckKey` | game.c:106-112 | the velocity and flag after the switch are `PressKey` of those before |
| `Game.Game.UpdateSnake` | game.c:120-153 | the new state is `Tick` of the old one, with the apple placement's choice; if the snake ate, the new apple is in bounds and off the snake |
| `Game.Game.MoveSnake` | game.c:123-131 | the in-place descending shift loop and the head move produce the old body advanced by the velocity |
| `Game.Game.CheckCollisions` | game.c:133-141 | the flag becomes set exactly when it was set, or the head is off the board, or the head is on another segment |
| `Game.Game.SelfCollision` | game.c:139-141 | the scan finds a hit exactly when the head equals some later segment |
| `Game.Game.AddTail` | game.c:144-148 | the body gains one segment, a copy of its current last one |
| `Game.Game.CellGlyph` | game.c:75-94 | the first-match scan over the body and the apple check print `Render.Glyph` for the cell: `O` on the head, else `o` on the body, else `@` on the apple, else `.` |
| `Game.Game.DrawRow` | game.c:74-96 | the inner loop of `draw` produces line y of the screen |
| `Game.Game.Draw` | game.c:73-97 | the nested loops of `draw` produce `Render.Screen`: 16 lines, y from 1 to 16 |

## Left out

- Terminal raw mode (`tcgetattr`/`tcsetattr`): operating-system calls with no game logic.
- Threads and the lock: `pthread_create`, `pthread_cancel`, `pthread_join` and `snakeLock`
  are left out. `UpdateSnake` and `CheckKey` are each one locked section, taken as atomic.
  `Draw` is taken as one atomic step; see above why that is sound. `Snake.Run` allows any
  interleaving of key presses and ticks.
- The input reader's loop: reading with `getchar` and stopping once the flag is set are
  left out. One pass through the `switch` is modelled, and `Keys.PressAll` chains such
  passes. End of input reaches the switch
  as an ordinary unrecognised character.
- `usleep` pacing and the main loop's render–update–sleep schedule. `Snake.Run` covers
  every order of steps, not only the main loop's.
- `srand`/`rand`: apple placement is a nondeterministic choice of a free in-bounds cell.
- Game.Game.PlaceApple: the choice is not uniformly random. The retry loop is replaced by
  the choice itself, so the number of attempts is not modelled.
- Memory management: `malloc`, `free` and `destroySnake` have no observable behaviour once
  segments are values.
- Output side effects: the screen-clear escape sequence, the help line and the
  "GAME OVER!" message are not part of `Render.Screen`.
- 32-bit `int` overflow of coordinates is not modelled; coordinates are unbounded integers.
  Overflow would need billions of ticks after the game is already over.
