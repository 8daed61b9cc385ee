# Tetris core in Dafny

This project models the game logic of a small Python/pygame Tetris
(`tetris_main.py`) and proves properties of it. There are four modules, one
per part of the program:

- `Tetromino` (`tetromino.dfy`) holds the piece catalog `Tetromino.shapes`:
  seven kinds with 5x5 character masks, one rotation state for O and four for
  the others. It also holds the active piece class `Tetromino` with its integer
  origin, its kind (`shape_idx`), its rotation index and `rotate`.
- `Grids` (`grid.dfy`) has the value-level meaning of the board operations on
  a grid `seq<seq<int>>`:
  - the collision scan of `is_collision`, with Python's semantics: an
    `IndexError` counts as a collision and negative indices wrap;
  - the stamp written by `place_tetromino`;
  - the full-row list, the kept rows and the cleared grid of `clear_lines`;
  - the single-row removal of `remove_line`.
- `Board` (`board.dfy`) has the `GameBoard` class. Its `grid` field is updated
  in place by methods with loops (placing, the blink writes, deleting rows),
  each proved against the functions of `Grids`.
- `Game` (`session.dfy`) has the state the main loop keeps in module-level
  variables, as a `Session` class. That state is the board, the falling and
  next pieces, the score, the fall timer and the game-over phase. The class has
  the key handlers (down, left, right, space), the gravity step with its lock
  (place, clear, score, promote `next`, spawn, game-over check), a whole frame,
  and the restart on Return.

The central result is the `Session` invariant `Game.Session.Valid`. Every
transition keeps it:
- while the game runs, the falling piece lies inside the board and overlaps no
  settled cell;
- the grid stays 20 rows of 15 cells, each 0 or 1;
- no row is ever full between frames;
- the score is always 100 times the number of rows cleared;
- the top row of the board is always empty.

The last point holds because every rotation state of every kind has an empty
first row, and pieces spawn at row 0 and only move down. So `is_game_over`,
which looks for a 1 in the top row, can never hold during play
(`Game.TopRowCheckNeverFires`). The game ends only through the collision check
on a newly spawned piece, as the main loop does.

Two behaviours of the code are kept as written:
- Rows above the board are not treated specially. In `is_collision`
  (tetris_main.py:179), a negative row index wraps to the bottom rows, as
  Python indexing does. The collision predicate keeps that wrapping.
  `Grids.CollidesIff` and `Board.GameBoard.IsCollision` give its clean meaning
  for rows `>= 0`, which are the only rows the game checks.
- `fall_time = current_time` (tetris_main.py:371) sits inside the lock
  branch. So once more than 500 ms have passed since the last lock, the piece
  falls one row on every frame until it locks. `Game.Session.TickOutcome` states this:
  a free fall leaves the fall time alone.

## Model

| member | source | states |
|---|---|---|
| Tetromino.CatalogFacts | tetris_main.py:15-148 | the catalog `Shapes` (the constants `I`, `O`, `T`, `S`, `Z`, `J`, `L`, the `shapes` table row for row) has 7 kinds; O has exactly 1 rotation state and every other kind 4; every state is 5 rows of 5 characters with an empty first row and exactly four 'O' cells |
| Tetromino.NumStates | tetris_main.py:154 | `len(shape)` is 1 for O and 4 for every other kind |
| Tetromino.MaskOf | tetris_main.py:159 | `shape[rotation]` for an in-range rotation is a well-formed 5x5 mask with four cells |
| Tetromino.TopRowEmpty | tetris_main.py:15-148 | no mask occupies any cell of its first row |
| Tetromino.NextRotation | tetris_main.py:158 | `(rotation + 1) % len(shape)` stays in `[0, len(shape))` |
| Tetromino.RotateN | tetris_main.py:157-159 | the rotation index after n rotations stays in range |
| Tetromino.RotateNIsSum | tetris_main.py:157-159 | n rotations add n to the rotation index modulo the number of states |
| Tetromino.RotationCycle | tetris_main.py:157-159 | rotating `len(shape)` times restores both the rotation index and the mask |
| Tetromino.Tetromino.constructor | tetris_main.py:150-155 | a new piece has the given origin and kind and rotation 0 |
| Tetromino.Tetromino.Shape | tetris_main.py:159 | the piece's current mask is well formed |
| Tetromino.Tetromino.Rotate | tetris_main.py:157-159 | `rotate` sets the rotation to the next index, changes nothing else, and returns the new state's mask |
| Grids.ConstRow | tetris_main.py:165 | `[v] * width` has `width` cells, all equal to v |
| Grids.ZeroRows | tetris_main.py:165 | k rows, each an empty row of `width` zeros |
| Grids.EmptyGrid | tetris_main.py:162-165 | the new grid is `height` rows of `width` cells, all 0 |
| Grids.CellBlocked | tetris_main.py:177-183 | the try/except test of one 'O' cell: for a row `>= 0` it collides exactly when its row is `>= height`, its column is outside `[0, width)`, or its grid cell is non-zero |
| Grids.ScanRow | tetris_main.py:176-183 | the inner loop with its early `return True` finds a collision exactly when some 'O' cell of the mask row, from column j on, is blocked |
| Grids.ScanRows | tetris_main.py:175-184 | the outer loop finds a collision exactly when some 'O' cell in the mask rows from row i on is blocked; `return False` when none is |
| Grids.Collides | tetris_main.py:174-184 | `is_collision` holds exactly when some 'O' cell of the mask, placed at (x, y), is blocked in Python's reading of the grid (an index error counts as blocked) |
| Grids.CollidesIff | tetris_main.py:174-184 | for rows `>= 0`, `is_collision` holds if and only if some 'O' cell lies left or right of the board, below its last row, or over a non-zero cell; cells other than 'O' never matter |
| Grids.FreePlacement | tetris_main.py:174-184 | a placement that does not collide lies inside the board, and every cell under an 'O' is 0 |
| Grids.SpawnFits | tetris_main.py:227-231 | a new piece of any kind at column `15 // 2`, row 0, never collides on an empty 15x20 board |
| Grids.Stamp | tetris_main.py:167-172 | the grid `place_tetromino` leaves keeps every row's length; a cell differs from before only if an 'O' of the piece lies over it, and then it is 1 |
| Grids.StampCells | tetris_main.py:167-172 | placing keeps the grid's dimensions and 0/1 cells, sets every 'O' cell of an in-bounds piece to 1, and leaves every other cell unchanged |
| Grids.StampMonotone | tetris_main.py:167-184 | placing a piece never removes a collision that some other placement had |
| Grids.StampBlocksItself | tetris_main.py:167-184 | once a piece is placed, the same piece collides at its own position |
| Grids.StampKeepsTopRow | tetris_main.py:167-172 | placing, at row `>= 0`, a mask whose first row is empty leaves row 0 of the grid unchanged |
| Grids.FullRows | tetris_main.py:195-197 | `full_rows` among the first n rows has at most n entries (which entries: `Grids.FullRowsSpec`) |
| Grids.KeptRows | tetris_main.py:214-218 | the rows among the first n that are not full, in order: at most n of them (none full: `Grids.KeptRowsNotFull`) |
| Grids.FullRowsSpec | tetris_main.py:195-197 | the list of full rows is strictly ascending and holds exactly the rows whose cells are all non-zero |
| Grids.KeptRowsLength | tetris_main.py:195-218 | the non-full rows and the full rows together are all the rows |
| Grids.KeptRowsNotFull | tetris_main.py:214-218 | no row that survives clearing is full |
| Grids.KeptRowsShape | tetris_main.py:214-218 | the surviving rows keep their width and their 0/1 cells |
| Grids.Cleared | tetris_main.py:214-218 | clearing keeps the number of rows |
| Grids.RemoveRow | tetris_main.py:186-188 | deleting row i and inserting an empty row at the top keeps the row count; row 0 becomes empty, rows above i shift down by one, and rows below i are unchanged |
| Grids.NoFullBetween | tetris_main.py:195-197 | rows that are not full add nothing to the full-row list and are kept in order |
| Grids.NoFullRowsCleared | tetris_main.py:199 | a grid without full rows is left unchanged by clearing |
| Grids.ClearedShape | tetris_main.py:190-220 | after clearing the grid is still `height` rows of `width` cells, each 0 or 1 |
| Grids.ClearedHasNoFullRow | tetris_main.py:190-220 | after clearing, no row is full |
| Grids.ClearIdempotent | tetris_main.py:190-220 | clearing a cleared grid finds no full row and changes nothing |
| Grids.ClearedKeepsTopRow | tetris_main.py:214-218 | clearing keeps an empty top row empty |
| Board.GameBoard.IsCollision | tetris_main.py:174-184 | on a valid board, for rows `>= 0`: `is_collision` holds exactly when some 'O' cell of the piece in the given rotation lies left or right of the board, below its last row, or over a non-zero cell |
| Board.GameBoard.constructor | tetris_main.py:162-165 | a new board has the given width and height and an all-zero grid |
| Board.GameBoard.PlaceTetromino | tetris_main.py:167-172 | the nested loop leaves the grid equal to the old grid with the piece's 'O' cells set to 1, and keeps it a valid board |
| Board.GameBoard.PlaceMaskRow | tetris_main.py:169-172 | the inner loop writes the 'O' cells of one mask row and no others |
| Board.GameBoard.RemoveLine | tetris_main.py:186-188 | `remove_line` pops the given row, counting a negative index from the bottom, and inserts an empty row on top |
| Board.GameBoard.FillRows | tetris_main.py:201-209 | writing `[v] * width` into the listed rows changes exactly those rows |
| Board.GameBoard.FindFullRows | tetris_main.py:191-197 | the scan returns the ascending list of full rows |
| Board.GameBoard.Blink | tetris_main.py:199-212 | the three zero-then-one blink writes leave the grid as it was |
| Board.GameBoard.RemoveFullRows | tetris_main.py:214-218 | the deletion loop counts one line per listed row and applies the single-row deletions in list order |
| Board.GameBoard.ClearLines | tetris_main.py:190-220 | `clear_lines` returns the number of full rows and leaves the non-full rows in their order at the bottom, under that many empty rows |
| Board.GameBoard.IsGameOver | tetris_main.py:222-223 | `is_game_over` holds if and only if the top row is not all zeros |
| Board.FullRowIsOnes | tetris_main.py:207-209 | a full row of a 0/1 grid is `[1] * width`, so the last blink write restores it |
| Board.GapHasNoFullRow | tetris_main.py:195-197 | no row lies strictly between two consecutive entries of the full-row list and is full |
| Board.NextGap | tetris_main.py:214-218 | between the previously deleted full row and the next one, no row is full |
| Board.Collapsing | tetris_main.py:214-218 | the deletions done one by one keep the row count |
| Board.CollapsingStart | tetris_main.py:214-218 | before any deletion, the grid is in collapsed form with nothing collapsed |
| Board.CollapsingForm | tetris_main.py:214-218 | after k deletions the grid is k empty rows, then the non-full rows above the k-th full row, then the untouched rows below it |
| Board.RemoveNext | tetris_main.py:216-217 | one more deletion keeps that form |
| Board.RemoveNextRow | tetris_main.py:216-217 | deleting the next full row from the partly collapsed grid extends the collapsed part down to that row |
| Board.RemoveStep | tetris_main.py:216-217 | deleting a full row below a run of non-full rows moves that run into the kept part and adds one empty row on top |
| Board.AfterLastFullRow | tetris_main.py:214-220 | once the last full row is deleted, the grid equals the cleared grid |
| Board.CollapsingIsCleared | tetris_main.py:214-218 | deleting every full row, one at a time in ascending order, gives the cleared grid, which is a valid board |
| Game.NewTetromino | tetris_main.py:227-231 | a new piece of the chosen kind sits at column `width // 2`, row 0, rotation 0 |
| Game.EmptyGridFacts | tetris_main.py:289-291 | the starting board has no full row and an empty top row |
| Game.LockedBoard | tetris_main.py:344-345 | placing a piece that fits and then clearing keeps the board valid, with no full row and an empty top row |
| Game.KeyStep | tetris_main.py:310-335 | one key event either leaves the piece where it is or moves it to a pose that does not collide; only K_DOWN changes the row, by one; the rotation stays in range |
| Game.ApplyKeys | tetris_main.py:306-335 | the key events of a frame, in order: a piece that fits where it starts still fits after them, and it never moves up |
| Game.PieceOnBoard | tetris_main.py:174-184 | under the session invariant `Game.Session.Valid`, while the game runs, every 'O' cell of the falling piece is on the board over an empty cell |
| Game.EveryRowHasGap | tetris_main.py:190-197 | under the session invariant, every row of the board holds an empty cell between frames |
| Game.ScoreIsWholeRows | tetris_main.py:347 | under the session invariant, the score is a multiple of 100 |
| Game.TopRowCheckNeverFires | tetris_main.py:222-223 | on the board of a running or ended session, `is_game_over` is false |
| Game.Session.constructor | tetris_main.py:289-296 | set-up: an empty 15x20 board, two new pieces at the spawn point, score 0, fall time 0, the invariant established |
| Game.Session.MoveLeft | tetris_main.py:317-322 | K_LEFT moves one column left exactly when that does not collide; nothing else changes; the invariant is kept; the new pose is `Game.KeyStep`'s |
| Game.Session.MoveRight | tetris_main.py:323-328 | K_RIGHT moves one column right exactly when that does not collide; nothing else changes; the invariant is kept; the new pose is `Game.KeyStep`'s |
| Game.Session.SoftDrop | tetris_main.py:311-316 | K_DOWN moves one row down exactly when that does not collide; nothing else changes; the invariant is kept; the new pose is `Game.KeyStep`'s |
| Game.Session.RotatePiece | tetris_main.py:329-335 | K_SPACE takes the next rotation state exactly when it does not collide; nothing else changes; the invariant is kept; the new pose is `Game.KeyStep`'s |
| Game.Session.HandleKey | tetris_main.py:310-335 | one key event moves the falling piece to the pose `Game.KeyStep` gives for that key and changes nothing else; other keys change nothing; the invariant is kept |
| Game.Session.HandleKeys | tetris_main.py:306-335 | the frame's key events, handled in order, leave the piece at the pose `Game.ApplyKeys` gives; the invariant is kept |
| Game.Session.Settle | tetris_main.py:344-347 | place, clear, and add 100 points per cleared row; the board stays valid with no full row and an empty top row |
| Game.Session.Promote | tetris_main.py:349-371 | `next` becomes the falling piece, a fresh next piece of the given kind is made, the game is over exactly when the new piece collides where it spawns, the timer is set to now; board and score unchanged; the invariant is re-established |
| Game.Session.Lock | tetris_main.py:343-371 | the new grid is the placed grid with its full rows cleared; the score grows by 100 times their number; `next` becomes the falling piece and a new `next` of the given kind is made; game over holds if and only if the new piece collides where it spawns; the timer is set to now |
| Game.Session.Tick | tetris_main.py:338-371 | the outcome is `Game.Session.TickOutcome` from the current state. Nothing happens unless strictly more than 500 ms have passed since the last lock. Then the piece falls one row if it can, leaving the timer alone. Otherwise it locks: the grid becomes the placed grid with its full rows cleared, the score grows by 100 per cleared row, `next` becomes the falling piece, a fresh next piece of the given kind is made, the game is over exactly when the new piece collides where it spawns, and the timer is set to now. The invariant is kept and the score never decreases |
| Game.Session.Frame | tetris_main.py:300-371 | the key events in order (`Game.ApplyKeys`), then the gravity step at the pose they leave: the new state is `Game.Session.TickOutcome` from the frame's starting grid, score, timer and pieces at that pose; the invariant is kept and the score never decreases |
| Game.Session.Restart | tetris_main.py:362-369 | Return on the game-over screen gives a fresh empty board, two new pieces and score 0, and the game runs again |

## Left out

- Rendering and windowing are not modelled: `draw_*`, `render`, `display_game_over`, `pygame.init` and the window set-up. They are calls into pygame and change no game state.
- The `render()`, `pygame.display.update()` and `time.sleep(0.1)` calls inside the blink of `clear_lines` are left out. Only the grid writes around them are modelled.
- Event polling, key repeat, `clock.tick` and the blocking wait on the game-over screen are left out. Key presses are method calls, and the frame's `pygame.time.get_ticks()` value is the parameter `now`.
- Quitting (the window's close event, and Escape on the game-over screen) is not modelled: `pygame.quit` and `sys.exit` end the process.
- The random kind of each new piece (`random.randint`) is left out. It is a parameter of type `Kind`, which is `[0, 7)`.
- Window and pixel constants (`WINDOW_WIDTH`, `WINDOW_HEIGHT`, `GRID_SIZE`, `FPS`) are rendering-only and are not modelled.
- The `shape` attribute of a piece is not a separate field: it is always `shapes[shape_idx]`, which the model computes from `kind`.
- Board.GameBoard.PlaceTetromino: requires every 'O' cell to lie inside the board. For other placements the source raises `IndexError` part-way, or wraps a negative index. The game only places pieces that do not collide at a row `>= 0`, and those lie inside the board (`Grids.FreePlacement`).
- Board.GameBoard.RemoveLine: requires `-height <= line < height`. Outside that range `pop` raises `IndexError`, which is not modelled.
- Grids.CollidesIff: its characterisation is stated for rows `>= 0` only. The collision predicate itself keeps Python's wrap-around for negative rows.
- Game.Session.MoveLeft, Game.Session.MoveRight, Game.Session.SoftDrop, Game.Session.RotatePiece, Game.Session.HandleKey, Game.Session.HandleKeys, Game.Session.Tick and Game.Session.Frame require a running game. After a game over, the source sits in its wait loop until Return or quit, and never reaches these branches.
- Game.Session.Frame: does not repeat that the next piece made by a lock is a newly allocated object. `Game.Session.Tick` and `Game.Session.Lock` state it, and `Game.Session.TickOutcome` gives its kind.
- Game.Session.Restart: leaves the fall time as the lock set it. The source's `fall_time = 0` is overwritten at once by `fall_time = current_time` with the same frame time, which the lock has already done.
- Tetromino.Tetromino.Rotate is never called by the main loop, which computes the next rotation inline for K_SPACE. Both are modelled, and the key handler uses `Tetromino.NextRotation`.
