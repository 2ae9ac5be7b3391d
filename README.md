# Falling-block puzzle: a verified model of the game core

This project models the core of a browser falling-block puzzle game: the
catalog of seven four-cell pieces, collision against a 20-row by 10-column
board, clockwise rotation (with and without a wall kick), the game session
that moves, drops, locks pieces and clears full rows, the scoring and level
arithmetic, the fall-timer period, and the top-ten leaderboard.

Layout, one module per file:

- `wrappers.dfy` — `Option`.
- `tetrominoes.dfy` — piece types, the catalog, `getColor`, `getRandomPiece`
  and the rotation transform (a pure function plus the loop that builds it).
- `grid.dfy` — board rows, the reference definitions of locking a piece into
  the board and of clearing full rows, and their properties.
- `collision.dfy` — the collision predicate, the scanning `checkCollision`
  loop proved equal to it, and the landing row of a hard drop.
- `scoring.dfy` — both score tables, the level formula, the fall period.
- `game_spec.dfy` — the session state as a value (`GameState`), its
  invariant, and one function per session operation with the lemmas about it.
- `game.dfy` — the session as a class `Session` whose fields are the game's
  module-level variables. Each event handler (`StartGame`, `ResetGame`,
  `MoveLeft`, `MoveRight`, `MoveDown`, `HardDrop`, `Rotate`,
  `RotateWithKick`, `LockPiece`, `PauseGame`, `Tick`, `KeyDown`) is proved to
  reach exactly the state the matching `GameSpec` function describes and to
  keep the session invariant. The helpers they call are proved against
  narrower contracts: `InitBoard`, `UpdateDropInterval`, `LockCells` and
  `SweepFullRows` against the board or timer value they produce (the last two
  against `Grid.Locked` and `Grid.Cleared`), and `ClearLines`,
  `ClearLinesClassic`, `SpawnNewPiece` and `GameOver` against their
  `GameSpec` functions without the invariant, which holds again only once
  the whole lock has finished (`LockAndSpawnProps`).
- `leaderboard.dfy` — reading the stored list and adding a score.

Modelling choices:

- A board cell is `Empty` or `Filled(kind)`: the game stores `0` or the
  piece's type key there, never a numeric piece code (js/game.js:194).
- The random piece choice is a `PieceType` parameter (`first`, `second`,
  `drawn`); every operation that may lock a piece takes the type drawn for
  the new next piece.
- The fall timer is the field `dropTimer: Option<int>`: `Some(period)` while
  an interval is armed, `None` once it is cleared. Its callback is the method
  `Tick`.
- The keyboard listener is `KeyDown`, over the keys the game reacts to.
- Colours and dates are opaque strings.
- The catalog file holds a second copy of the session operations. Both
  rotation policies (`Rotate`, no kick; `RotateWithKick`, two-step kick) and
  both score tables (`ClearLines` with 0/100/300/500/800,
  `ClearLinesClassic` with 0/40/100/300/1200) are modelled as separate
  operations; the session's own lock uses the 0/100/300/500/800 table. The
  rotation transform, which the later `rotatePiece()` declaration shadows in
  that file, is the separately named `RotateShape`/`RotatedPiece`.

The keyboard listener drops every key, `KeyP` included, while the game is
paused (js/game.js:317), so a pause started from the
keyboard cannot be ended from it (`KeyDownProps`).

## Model

| member | source | states |
|---|---|---|
| Tetrominoes.CatalogShape | js/tetrominoes.js:2-59 | defines the seven catalog matrices, entry by entry |
| Tetrominoes.CatalogColor | js/tetrominoes.js:2-59 | defines the catalog colour of each type |
| Tetrominoes.Key | js/tetrominoes.js:2-62 | defines each type's property name in the catalog (the names `TETROMINO_TYPES` lists), `"I"` to `"Z"`, the keys cells and lookups use |
| Tetrominoes.CatalogOccupied | js/tetrominoes.js:2-59 | the occupied cells of each catalog matrix are exactly the listed four positions |
| Tetrominoes.CatalogWellFormed | js/tetrominoes.js:2-59 | every catalog shape is an N×N 0/1 matrix with N in 2..4 and exactly four occupied cells |
| Tetrominoes.KindOfKey | js/tetrominoes.js:103-105 | a key names a piece type exactly when it is one of the seven type keys |
| Tetrominoes.GetColor | js/tetrominoes.js:103-105 | the catalog colour for each of the seven keys, `#ffffff` for any other key |
| Tetrominoes.GetRandomPiece | js/tetrominoes.js:65-74 | the spawned piece copies the catalog shape and colour, sits in row 0 and is centred (x + size/2 = 5), and is well formed |
| Tetrominoes.RotateShape | js/tetrominoes.js:77-94 | the rotated matrix is square of the same size |
| Tetrominoes.RotatedPiece | js/tetrominoes.js:77-94 | the transform changes only the shape: type, x, y and colour are kept |
| Tetrominoes.BuildRotated | js/tetrominoes.js:77-94 | the nested loop builds `rotated[i][j] = shape[size-1-j][i]`, equal to `RotateShape` |
| Tetrominoes.RotateFourTimes | js/tetrominoes.js:77-94 | four rotations give back the original matrix |
| Tetrominoes.RotateOccupied | js/tetrominoes.js:77-94 | the occupied cells of the rotation are the turned occupied cells of the input |
| Tetrominoes.TurnKeepsCount | js/tetrominoes.js:77-94 | turning a set of cells keeps its size (the turn is injective) |
| Tetrominoes.RotateKeepsWellFormed | js/tetrominoes.js:77-94 | rotation keeps a well-formed shape well formed, with the same number of occupied cells |
| Grid.EmptyRow | js/game.js:225 | a new row has ten empty cells |
| Grid.EmptyRows | js/game.js:13-17 | k rows, each an empty row |
| Grid.EmptyRowNotFull | js/game.js:221-225 | the row put on top is never full |
| Grid.EmptyBoard | js/game.js:15 | the board `initBoard` creates: 20 rows, each an empty row |
| Grid.EmptyBoardWellFormed | js/game.js:13-17 | the initial board is 20×10 with no full row |
| Grid.IsFull | js/game.js:221 | defines a full row: no cell of it is empty |
| Grid.KeepNonFull | js/game.js:217-229 | defines the rows that survive a clear: the non-full rows, in their order |
| Grid.FullCount | js/game.js:217-229 | defines the number of rows a clear removes: the full rows |
| Grid.Cleared | js/game.js:217-229 | defines the board after a clear: one empty row per full row on top of the surviving rows |
| Grid.SpliceRow | js/game.js:223-225 | removing the scanned row and putting an empty row on top adds one empty row above the unscanned rows |
| Grid.KeepNonFullCons | js/game.js:221-227 | a full row is dropped and counted, a non-full row is kept |
| Grid.SweepEnds | js/game.js:217-229 | the sweep starts from the untouched board with nothing counted and ends in the cleared board |
| Grid.SweepHeight | js/game.js:220-228 | during the sweep the board keeps its 20 rows |
| Grid.SweepTopRow | js/game.js:227 | once every original row is scanned, the rows the re-check revisits are empty rows |
| Grid.SweepStep | js/game.js:220-228 | one iteration of the bottom-up sweep moves the board to the next state of the sweep, and the row it looks at is the next unscanned row |
| Grid.KeepNonFullProps | js/game.js:217-229 | the survivors plus the removed rows account for every row; no survivor is full; survivors are rows of the input |
| Grid.KeepNonFullAppend | js/game.js:217-229 | clearing works row by row: survivors and counts of a concatenation are those of the parts |
| Grid.ClearedProps | js/game.js:217-229 | after clearing, the board is still 20×10, no row is full, and the top n rows are empty |
| Grid.ClearedNoFullRow | js/game.js:217-229 | a board without full rows is left unchanged and nothing is counted |
| Grid.FullCountWindow | js/game.js:217-229 | if full rows can only lie in a window of rows, at most that many are cleared |
| Grid.Locked | js/game.js:185-198 | defines the board after a lock: the piece type written into every cell under an occupied shape cell with board row ≥ 0 |
| Grid.LockedCells | js/game.js:185-198 | locking writes the piece's type exactly into the covered cells (occupied, board row ≥ 0); every other cell is unchanged and the dimensions are kept |
| Grid.LockStep | js/game.js:188-196 | one inner iteration of the lock loop writes one cell, or nothing for a blank cell or a row above the board |
| Grid.LockRowDone | js/game.js:187-197 | finishing a shape row moves the lock loop to the next row |
| Grid.LockStart | js/game.js:186-187 | before the loop nothing is written |
| Grid.LockedFullRows | js/game.js:185-199 | locking a piece of at most four rows into a board without full rows gives a 20×10 board with at most four full rows, so the score table index stays in range |
| Collision.Blocked | js/tetrominoes.js:149-164 | defines a blocked board position: outside the columns, below the floor, or on the board and filled |
| Collision.Collides | js/tetrominoes.js:144-165 | defines a collision: some occupied shape cell lands on a blocked position |
| Collision.CheckCollision | js/tetrominoes.js:144-165 | the scan answers true exactly when some occupied cell is out of the columns, below the floor, or on a filled board cell |
| Collision.IsValidRotation | js/tetrominoes.js:97-100 | true exactly when the rotated piece does not collide |
| Collision.OutOfBoundsCollides | js/tetrominoes.js:149-155 | an occupied cell at x < 0, x ≥ 10 or y ≥ 20 makes the piece collide, whatever the board |
| Collision.CollidesIffOverlap | js/tetrominoes.js:156-164 | for an in-bounds piece, it collides iff an occupied cell with board y ≥ 0 meets a filled cell |
| Collision.AboveBoardNeverCollides | js/tetrominoes.js:156-164 | cells above the top row are never compared with the board |
| Collision.BlankShapeNeverCollides | js/tetrominoes.js:144-165 | a shape without occupied cells never collides |
| Collision.FitsIsInBounds | js/tetrominoes.js:149-155 | a piece that fits keeps every occupied cell in the columns and above the floor |
| Collision.FitsIsAboveFloor | js/tetrominoes.js:152-155 | a fitting non-blank piece is above row 20, which bounds the hard-drop loop |
| Collision.SpawnFits | js/tetrominoes.js:65-74 | every freshly spawned piece fits on the empty board |
| Collision.Drop | js/game.js:153-159 | defines where a hard drop leaves the piece: moved down one row at a time while the next row fits |
| Collision.DropLands | js/game.js:153-159 | the landing position keeps x and shape, lies at or below the start, fits, every row in between fits, and one row lower collides |
| Scoring.LineScore | js/game.js:234 | table 0/100/300/500/800: non-negative, strictly increasing, at least 100 per line |
| Scoring.ClassicLineScore | js/tetrominoes.js:275 | table 0/40/100/300/1200: non-negative, strictly increasing, at least 40 per line |
| Scoring.LevelFor | js/game.js:235 | level ≥ 1 and the line count lies in [10(level-1), 10·level) |
| Scoring.DropInterval | js/game.js:293-295 | the period is ≥ 100, within [250, 1000] for level ≥ 1, and 250 from level 16 on |
| Scoring.DropIntervalMonotone | js/game.js:293-295 | the period never rises as the level rises |
| Scoring.DropIntervalFloorUnreached | js/game.js:293-295 | for level ≥ 1 the 100 ms floor never applies |
| Scoring.TenLinesScenario | js/game.js:231-235 | ten lines reach level 2 and a 950 ms period; one line scores 100 (40 with the other table) at level 1 |
| GameSpec.Inv | js/game.js:2-10 | defines the session invariant: 20×10 board with no full row, current and next pieces present together and well formed, a live piece never collides, level = floor(lines/10)+1, non-negative score, and a timer armed only while neither paused nor over, at the level's period, and always armed while a piece falls unpaused |
| GameSpec.InitialState | js/game.js:2-17 | defines the state after the page loads: empty board, no pieces, score 0, level 1, no lines, not paused, not over, no timer |
| GameSpec.StartSpec | js/game.js:20-46 | defines the started state: empty board, the two drawn pieces, score 0, level 1, no lines, flags cleared, timer at level 1's period |
| GameSpec.InitialInv | js/game.js:2-17 | the loaded page satisfies the session invariant with no piece in play |
| GameSpec.StartInv | js/game.js:20-46 | a started game satisfies the invariant, is active, and arms the timer at 1000 ms |
| GameSpec.ShiftSpec | js/game.js:120-138 | defines a side move: the piece shifted by dx when active and the shifted piece fits, else the unchanged state |
| GameSpec.ShiftProps | js/game.js:120-138 | a side move changes x by exactly ±1 when the moved piece fits and restores it otherwise, touches nothing else, does nothing while paused or over, and keeps the invariant |
| GameSpec.RotateSpec | js/game.js:161-182 | defines rotation without kick: the rotated piece when active and it fits, else the unchanged state |
| GameSpec.RotateProps | js/game.js:161-182 | rotation without kick replaces the shape only when the rotated piece fits, never changes x or y or anything else, and keeps the invariant |
| GameSpec.KickPlacement | js/tetrominoes.js:213-232 | defines where the kick leaves the piece: rotated in place, one column left, one column right, or the original piece, whichever fits first |
| GameSpec.RotateWithKickSpec | js/tetrominoes.js:213-232 | defines the kicking rotation: any present piece (pause and game over not checked) moved to its kick placement |
| GameSpec.RotateWithKickProps | js/tetrominoes.js:213-232 | the kick ends with a fitting rotated piece at x-1, x or x+1 and the same y, or with exactly the original piece; it prefers the unshifted rotation; the invariant is kept |
| GameSpec.LockSpec | js/game.js:185-198 | defines the lock loop's effect: the current piece written into the board |
| GameSpec.Award | js/game.js:231-238 | defines the bookkeeping after n > 0 cleared rows: lines += n, score += points × old level, level recomputed, timer re-armed; nothing for n = 0 |
| GameSpec.ClearLinesSpec | js/game.js:217-239 | defines a clear with table 0/100/300/500/800: the cleared board and the award for the full-row count |
| GameSpec.ClearLinesClassicSpec | js/tetrominoes.js:258-283 | defines a clear with table 0/40/100/300/1200 |
| GameSpec.GameOverSpec | js/game.js:242-247 | defines game over: the flag set and the timer cleared |
| GameSpec.SpawnSpec | js/game.js:205-214 | defines a spawn: next becomes current, the drawn type becomes next, and the game ends when the promoted piece collides |
| GameSpec.LockAndSpawn | js/game.js:185-202 | defines a lock: lock the piece, clear lines, spawn |
| GameSpec.LockAndSpawnProps | js/game.js:185-239 | a lock writes the piece, clears the n ≤ 4 full rows, adds n lines and table(n)·(old level) points, recomputes the level, promotes the next piece, draws a new next piece, and ends the game exactly when the promoted piece collides |
| GameSpec.MoveDownSpec | js/game.js:140-151 | defines the down move and its result: (unchanged, true) when inactive; (lock and spawn, false) when the step down collides; (one row down, true) otherwise |
| GameSpec.MoveDownProps | js/game.js:140-151 | the down move reports false exactly when the step down collided, and then the piece was locked and the next one spawned; otherwise the piece moved one row down, or nothing changed while paused or over |
| GameSpec.HardDropSpec | js/game.js:153-159 | defines a hard drop: when active, the piece moved to its landing row and then locked; otherwise unchanged |
| GameSpec.HardDropProps | js/game.js:153-159 | a hard drop lands the piece on its landing row and performs exactly one lock; nothing happens while paused or over |
| GameSpec.HardDropUnfolds | js/game.js:153-159 | one down move that succeeds leaves the hard drop's outcome unchanged and the piece one row lower; one that fails is the whole hard drop |
| GameSpec.TickSpec | js/game.js:297-301 | defines the timer callback: a down move unless paused or over |
| GameSpec.PauseSpec | js/game.js:258-267 | defines pause: unchanged when over; otherwise the flag toggled, the timer cleared on pause and re-armed at the level's period on resume |
| GameSpec.PauseProps | js/game.js:258-267 | pause toggles the flag unless the game is over, changes only the flag and timer, and pausing twice restores every field but the timer |
| GameSpec.FrozenWhenPausedOrOver | js/game.js:120-162 | while paused or over, the moves, rotation, hard drop and the timer's tick change nothing |
| GameSpec.KeyDownSpec | js/game.js:316-340 | defines the key listener: nothing while paused or over; otherwise the arrows, space and P dispatch to their operations and other keys do nothing |
| GameSpec.KeyDownProps | js/game.js:316-340 | every key keeps the invariant, and while paused every key, the pause key included, is ignored |
| GameSpec.ClearLinesVariants | js/tetrominoes.js:258-283 | both clears remove the same rows and add the same lines and level; they differ only in the score, which uses each table times the level before the update |
| Game.KickRotate | js/tetrominoes.js:213-232 | the kick's steps (rotate; x-1; x+2; x-1 and restore shape) place the piece where the kick specification says |
| Game.Session.constructor | js/game.js:2-17 | the session starts in the initial state |
| Game.Session.InitBoard | js/game.js:13-17 | the board becomes 20 empty rows |
| Game.Session.UpdateDropInterval | js/game.js:289-302 | the timer is re-armed with the current level's period |
| Game.Session.StartGame | js/game.js:20-46 | from any state, the session becomes the started state of the two drawn types; from a finished game it goes through the reset |
| Game.Session.ResetGame | js/game.js:270-286 | clears every field and starts a new game |
| Game.Session.MoveLeft | js/game.js:120-128 | the state becomes the side-move specification for -1 |
| Game.Session.MoveRight | js/game.js:130-138 | the state becomes the side-move specification for +1 |
| Game.Session.MoveDown | js/game.js:140-151 | state and result are those of the down-move specification |
| Game.Session.HardDrop | js/game.js:153-159 | the loop of down moves ends in the hard-drop specification's state |
| Game.Session.Rotate | js/game.js:161-182 | the state becomes the no-kick rotation specification |
| Game.Session.RotateWithKick | js/tetrominoes.js:213-232 | the state becomes the kick rotation specification |
| Game.Session.LockPiece | js/game.js:185-202 | the state becomes the lock-and-spawn specification |
| Game.Session.LockCells | js/game.js:185-198 | the nested loop leaves the board equal to the piece locked into the old board |
| Game.Session.SweepFullRows | js/game.js:217-229 | the descending splice/unshift loop leaves the cleared board and returns the number of full rows |
| Game.Session.ClearLines | js/game.js:217-239 | the state becomes the clear-lines specification with table 0/100/300/500/800 |
| Game.Session.ClearLinesClassic | js/tetrominoes.js:258-283 | the state becomes the clear-lines specification with table 0/40/100/300/1200 |
| Game.Session.SpawnNewPiece | js/game.js:205-214 | the next piece becomes current, a new next piece is drawn, and the game ends when the promoted piece collides |
| Game.Session.GameOver | js/game.js:242-247 | sets the game-over flag and clears the timer, nothing else |
| Game.Session.PauseGame | js/game.js:258-267 | the state becomes the pause specification |
| Game.Session.Tick | js/game.js:297-301 | the timer callback moves down unless paused or over |
| Game.Session.KeyDown | js/game.js:316-340 | the state becomes the key dispatch specification |
| Leaderboard.GetLeaderboard | js/leaderboard.js:6-9 | the stored list, or the empty list when nothing is stored |
| Leaderboard.Insert | js/leaderboard.js:23 | defines one insertion step of the ranking: the entry goes after every entry scoring at least as much |
| Leaderboard.SortByScore | js/leaderboard.js:23 | defines the ranking: a stable sort by descending score |
| Leaderboard.InsertMultiset | js/leaderboard.js:23 | inserting into the ranking adds exactly the one entry |
| Leaderboard.InsertSorted | js/leaderboard.js:23 | inserting into a ranked list keeps it ranked |
| Leaderboard.SortByScoreProps | js/leaderboard.js:23 | the sort yields a non-increasing list by score holding exactly the input entries |
| Leaderboard.SortSortedIsIdentity | js/leaderboard.js:23 | sorting a list that is already ranked leaves it unchanged (the sort is stable) |
| Leaderboard.InsertAtEnd | js/leaderboard.js:23 | an entry scoring no more than every ranked entry goes last, after entries with equal score |
| Leaderboard.TopOfRanked | js/leaderboard.js:23-24 | keeping a prefix of a ranked list keeps it ranked, and every dropped entry scores at most every kept one |
| Leaderboard.AddToLeaderboard | js/leaderboard.js:12-28 | at most ten entries, ranked by score, a sub-multiset of the old entries plus the new one, dropped entries score at most every kept one, and with fewer than ten old entries the new entry is kept and the length grows by one |

## Left out

- Canvas drawing (`drawBoard`, `drawNextPiece`) and the DOM writes
  `updateDisplay`, the game-over dialog and `updateLeaderboardDisplay`:
  rendering only.
- `submitScore` (js/game.js:250-255): it reads the player name from the
  form, falls back to `'匿名玩家'` when the name is empty, and calls
  `addToLeaderboard` with the final score. That call, `AddToLeaderboard`
  with the session's `score` and the defaulted name, is left to the caller,
  since the name comes from a form field; the dialog and redraw around it
  are rendering only.
- `clearLeaderboard` (js/leaderboard.js:50-53): it removes the stored list,
  after which `getLeaderboard` returns `[]` (in the model, `stored` becomes
  `None` and `GetLeaderboard(None)` is `[]`). It is left out together with
  persistence.
- Timer scheduling: `setInterval`/`clearInterval` become the stored period
  `dropTimer` and the explicit `Tick`; real time is not modelled.
- `Math.random`: the drawn piece type is a parameter.
- `localStorage`, `JSON.parse`/`JSON.stringify` and the date: the stored
  list is an `Option` of a sequence, the date an opaque string, and the
  value written back to storage (the same list that is returned) is left to
  the caller. Malformed stored JSON, on which `JSON.parse` throws, is not
  modelled.
- The copies of `movePieceLeft/Right/Down`, `hardDrop`, `pauseGame` and
  `resetGame` in js/tetrominoes.js: the model follows the js/game.js
  versions. The copies of the moves, `hardDrop` and `pauseGame` lack the
  pause and game-over guards (they check only that a piece exists, or
  nothing for `pauseGame`); their `movePieceDown` returns `undefined` rather
  than `true` when no piece exists (js/tetrominoes.js:191 against
  js/game.js:141); and their side moves redraw only after a successful move
  (js/tetrominoes.js:174-176, 185-187) where js/game.js redraws every time
  (js/game.js:127, 137). The `resetGame` copy (js/tetrominoes.js:317-333) is
  identical to js/game.js:270-286. That file's `lockPiece` is the same loop
  as `LockCells` but ends in a call to `spawnPiece`, which no file defines,
  and its `rotatePiece()` calls the shadowed transform, which by then refers
  to itself; the model uses the intended transform `RotatedPiece`.
- Collision.IsValidRotation: models `isValidRotation` with the intended
  one-argument transform `RotatedPiece`. As written, the call
  `rotatePiece(piece)` at js/tetrominoes.js:98 resolves to the zero-argument
  session `rotatePiece()`: with the js/tetrominoes.js:213 copy live it
  recurses without end, and with the js/game.js:161 copy live it rotates the
  live piece and returns `undefined`, on which `checkCollision` throws at
  js/tetrominoes.js:145. Neither behaviour is modelled.
- Which copy of a duplicated operation is live depends on script load
  order, which is set by a page that is not part of this model.
- Game.Session.ClearLines, Game.Session.ClearLinesClassic: require at most four full rows, which holds for every call from a lock (`LockedFullRows`); with more, the table lookup would yield `undefined`.
- Numbers are unbounded integers; JavaScript's double precision for very
  large scores is not modelled.
