# A verified model of the tetris.js game engine

This project models the game-state engine of `tetris.js`, a browser Tetris.
The engine has a 20-row by 12-column arena of integer cells, where 0 is empty
and 1..7 is the id of the piece that left the block there. It also has one
active piece, a square matrix at a position `(x, y)`, with a score and the
drop counter that drives gravity.

The modules follow the engine's parts:

- `Grid` (`grid.dfy`): matrices as sequences of rows, and `createMatrix`.
- `Pieces` (`pieces.dfy`): the seven-piece catalog of `createPiece` and the
  spawn string `'ILJOTSZ'`.
- `Collision` (`collision.dfy`): `collide`, read literally. A non-zero piece
  cell outside the arena on any side collides, as does one on a non-zero
  arena cell. This is what makes the floor and the walls solid. The module
  also has the arena that `merge` produces.
- `Rotation` (`rotation.dfy`): `rotate`, in place on a two-dimensional
  array. It is a transpose, then either a reversal of each row (clockwise) or
  a reversal of the row order (any other direction).
- `LineClear` (`sweep.dfy`): `arenaSweep` as a specification. The bottom-up
  scan with `y++` after each removal is stated recursively and proved equal
  to a closed form:
  - the full rows go;
  - as many zero rows appear on top;
  - 10·(2ᵏ − 1) points are awarded for k cleared rows.
- `KickSearch` (`kick.dfy`): the wall-kick loop of `playerRotate`, over the
  column test "does the turned piece collide at x".
- `Rules` (`rules.dfy`): each player operation as a pure transition on a
  `Board` (arena, piece, position, score). Lemmas state what each operation
  promises and prove that each keeps the invariant `Wf`. `Wf` says the arena
  is 20 × 12 and the piece is a square of side 2..4 whose blocks lie inside
  the arena.
- `Controller` (`controller.dfy`): the global `arena`, `player` and
  `dropCounter` as one class `Game`, with `matrix` as an `array2<int>` that
  `rotate` turns in place. PlayerReset, PlayerMove, PlayerDrop, PlayerRotate,
  Update and HandleKey are each proved to perform a transition of `Rules`
  exactly, and to keep `Valid()`. Merge and ArenaSweep are the steps of the
  lock, proved to compute `Collision.Merged` and `LineClear.Sweep`. The
  class also holds the gravity step of `update` and the `keydown` dispatch.

The random pick of `playerReset` becomes a parameter `pick` (0..6), an index
into `'ILJOTSZ'`.

Two behaviours of the code are easy to misread; the model follows the code:

- Out-of-range cells collide. A row or column that does not exist reads as
  `undefined`, and `undefined !== 0` is true (tetris.js:43-45), so a block
  outside the arena on any side collides (`Collision.Collide`).
- An arena that is full in every row is cleared completely. Index 0 is never
  scanned, but row 0's content is examined once it has shifted down, so it
  is cleared too (`LineClear.AllFullArena`).

## Model

| member | source | states |
|---|---|---|
| Grid.CreateMatrix | tetris.js:54-60 | the result has exactly h rows of w cells, all 0 |
| Grid.Cleared | tetris.js:179 | every row keeps its length and every cell becomes 0 |
| Pieces.CreatePiece | tetris.js:62-106 | a matrix exactly for the seven kinds T O L J I S Z (None otherwise), and each is an n×n square with n in 2..4, four non-zero cells, all holding that kind's id (T=1 … Z=7) |
| Pieces.TPieceShape | tetris.js:63-68 | the T piece is a 3×3 square with four cells of id 1 |
| Pieces.OPieceShape | tetris.js:69-73 | the O piece is a 2×2 square with four cells of id 2 |
| Pieces.LPieceShape | tetris.js:74-79 | the L piece is a 3×3 square with four cells of id 3 |
| Pieces.JPieceShape | tetris.js:80-85 | the J piece is a 3×3 square with four cells of id 4 |
| Pieces.IPieceShape | tetris.js:86-92 | the I piece is a 4×4 square with four cells of id 5 |
| Pieces.SPieceShape | tetris.js:93-98 | the S piece is a 3×3 square with four cells of id 6 |
| Pieces.ZPieceShape | tetris.js:99-104 | the Z piece is a 3×3 square with four cells of id 7 |
| Pieces.SpawnShape | tetris.js:171-173 | the shape chosen by spawn index `pick` is a well-formed piece of the kind `'ILJOTSZ'[pick]` |
| Pieces.SpawnOrderCoversCatalog | tetris.js:171 | the spawn string names each of the seven kinds exactly once |
| Pieces.IdsDistinct | tetris.js:62-106 | blocks of different kinds never hold the same id |
| Collision.Collide | tetris.js:35-52 | what `collide` decides: some non-zero piece cell lands on an arena cell that is missing (any side) or non-zero; zero piece cells are never tested |
| Collision.DetectCollision | tetris.js:35-52 | the early-returning scan answers true exactly when some non-zero piece cell lands outside the arena or on a non-zero arena cell |
| Collision.FreeFits | tetris.js:43-45 | a piece that does not collide has every block inside the arena |
| Collision.FittingCollision | tetris.js:43-45 | for a piece inside the arena, collision is exactly an overlap with a non-zero arena cell (both directions) |
| Collision.EmptyArenaCollision | tetris.js:43-45 | on an all-zero arena a piece collides if and only if some block is out of bounds |
| Collision.Merged | tetris.js:133-143 | merging keeps the dimensions, writes each non-zero piece value at its offset, and leaves every other cell as it was |
| Collision.MergedCollides | tetris.js:133-143 | a merged piece with at least one block collides where it was merged |
| Collision.MergeKeepsBlocks | tetris.js:137-139 | a non-zero arena cell stays non-zero after a merge |
| Rotation.Turned | tetris.js:203-223 | a turn keeps the matrix square and of the same size |
| Rotation.Opposite | tetris.js:197 | the undo direction turns the other way from `direction`, and the same way as `-direction` whenever `direction` is not 0 |
| Rotation.TurnsCancel | tetris.js:203-223 | clockwise then counter-clockwise restores the matrix, and so does the reverse order |
| Rotation.UndoTurn | tetris.js:197 | turning back in the opposite direction restores the matrix, for every direction |
| Rotation.HalfTurn | tetris.js:203-223 | two clockwise turns map cell (i, j) to cell (n−1−i, n−1−j) |
| Rotation.FourTurns | tetris.js:203-223 | four clockwise turns restore the matrix |
| Rotation.TurnKeepsCount | tetris.js:203-223 | a turn in either direction keeps the number of non-zero cells |
| Rotation.Transpose | tetris.js:204-215 | after the swap loop m[i, j] holds the old m[j, i] |
| Rotation.ReverseEachRow | tetris.js:218-219 | each row ends up reversed |
| Rotation.ReverseRowOrder | tetris.js:220-221 | the row order ends up reversed |
| Rotation.Rotate | tetris.js:203-223 | in place, clockwise gives new[i][j] = old[n−1−j][i] and any other direction gives new[i][j] = old[j][n−1−i]; the cells equal `Turned` of the old cells |
| LineClear.SweepFrom | tetris.js:10-32 | the scan from index y with award rowCount·10: stops at y ≤ 0; a full row at y is removed, a zero row put on top, rowCount·10 added, rowCount doubled and y examined again; otherwise y − 1 is examined |
| LineClear.SweepFromClosedForm | tetris.js:10-30 | the scan from row y with award rowCount·10 removes every full row among rows 0..y (row 0 only once a lower row was cleared), puts as many zero rows on top, keeps the rows below y, and awards rowCount·10·(2ᵏ−1) |
| LineClear.Sweep | tetris.js:7-33 | a whole sweep leaves k zero rows over the surviving rows in their original order, and awards 10·(2ᵏ−1), where k = 0 when no row below row 0 is full |
| LineClear.SweepKeepsShape | tetris.js:22-24 | a sweep keeps the arena's height and width |
| LineClear.SweepLeavesNoFullRow | tetris.js:10-16 | after a sweep no row below row 0 is full |
| LineClear.OnlyTopRowFull | tetris.js:10 | an arena whose only full row is row 0 is unchanged, with 0 points |
| LineClear.AllFullArena | tetris.js:10-26 | an arena full in every row is cleared entirely, row 0 included, for 10·(2ʰ−1) points |
| LineClear.SweepExample | tetris.js:7-33 | rows full, full, partial, empty, full become three zero rows over the partial and empty rows, for 70 points |
| LineClear.AwardTable | tetris.js:28-30 | 1, 2, 3 and 4 cleared rows award 10, 30, 70 and 150 points |
| KickSearch.KickFrom | tetris.js:192-200 | the `while` loop: settles at a free x; at a blocked x shifts by the offset, computes the next offset −(offset ± 1), and gives up at the shifted, untested x once that offset exceeds the width |
| KickSearch.NudgeClosedForm | tetris.js:193-195 | after k shifts x has moved by (k+1)/2 when k is odd and by −k/2 when k is even |
| KickSearch.TestedColumns | tetris.js:193-195 | the positions tested are x₀, x₀+1, x₀−1, x₀+2, x₀−2 |
| KickSearch.KickFromAt | tetris.js:192-200 | the loop from its k-th pass is the linear search over x₀ + Nudge(k), x₀ + Nudge(k+1), … up to Tries(width) positions |
| KickSearch.SearchSettled | tetris.js:192-200 | a settled search stops at the first free position among those tested, and every earlier one collides |
| KickSearch.SearchAbandoned | tetris.js:196 | an abandoned search found every tested position colliding, and stopped at the untested next one |
| KickSearch.KickOutcome | tetris.js:186-201 | a piece free where it stands keeps its x; a settled search ends free at x₀ + a prefix sum of 1, −2, 3, … within at most width + 1 tests, all earlier ones colliding; an abandoned one found all width + 1 or fewer tested positions colliding |
| Rules.Moved | tetris.js:161-168 | `playerMove`: x + direction when the piece is free there, otherwise the board unchanged |
| Rules.Respawned | tetris.js:170-184 | `playerReset` with a chosen shape: the shape at row 0, x = ⌊w/2⌋ − ⌊n/2⌋; if it collides there, every arena cell and the score become 0 |
| Rules.Locked | tetris.js:151-154 | the lock: merge the piece, then reset with the new shape (game-over test on the merged arena), then sweep and add the sweep's points |
| Rules.Dropped | tetris.js:145-159 | `playerDrop`: one row down when that row is free, otherwise the lock at the current row |
| Rules.Rotated | tetris.js:186-201 | `playerRotate` with the abort repaired: the turned piece at the x where the kick search settles, or, when it gives up, the piece turned back the opposite way at the saved x |
| Rules.RotatedAsWritten | tetris.js:186-201 | `playerRotate` as written: a settled search finishes with the turned piece at its x; an exhausted one ends in a ReferenceError with the turned piece left at the shifted x |
| Rules.SpawnFits | tetris.js:174-176 | a piece of side 1..4 at the spawn position lies inside a 20 × 12 arena |
| Rules.MoveRules | tetris.js:161-168 | x ends at x + direction, or stays when that collides; y, piece, arena and score are unchanged; a non-colliding piece stays non-colliding; `Wf` is kept |
| Rules.MovedWf | tetris.js:161-168 | a move keeps `Wf` |
| Rules.WallsHold | tetris.js:161-168 | a piece with a block in column 0 cannot move left, and one with a block in column 11 cannot move right |
| Rules.ResetRules | tetris.js:170-184 | the new piece stands at y = 0, x = ⌊12/2⌋ − ⌊n/2⌋; on a collision there the arena is all zeros and the score 0, otherwise both are kept; `Wf` holds |
| Rules.RespawnedWf | tetris.js:170-184 | a reset establishes `Wf` |
| Rules.SweepZeroArena | tetris.js:7-33 | sweeping an all-zero arena changes nothing and awards nothing |
| Rules.LockRules | tetris.js:150-154 | the lock merges the piece, then spawns, with the game-over test on the merged arena before any line is cleared, then sweeps; after a game over the arena is all zeros and the score 0, otherwise the arena is the sweep of the merged arena and the score rises by the sweep's award; `Wf` holds |
| Rules.LockedWf | tetris.js:150-154 | a lock keeps `Wf` |
| Rules.DropRules | tetris.js:145-159 | if the row below is free, only y grows by 1; otherwise the piece locks at its current row; `Wf` is kept |
| Rules.DroppedWf | tetris.js:145-159 | a drop keeps `Wf` |
| Rules.RotateRules | tetris.js:186-201 | row, arena and score are unchanged; when the kick search gives up the board is unchanged; when it settles the piece is the turned one, free, at x₀ + Nudge(j) with j ≤ n; a turned piece free in place keeps x; `Wf` is kept |
| Rules.RotatedWf | tetris.js:186-201 | a rotation keeps `Wf` |
| Rules.RotateKeepsFree | tetris.js:186-201 | with the repaired abort, a piece that starts free ends free |
| Rules.AsWrittenAgreesWhenSettled | tetris.js:192-200 | whenever the search settles, the source's rotation and the repaired one give the same board |
| Rules.AbortAsWrittenOverlaps | tetris.js:196-198 | in a one-column shaft, a free vertical I piece turned clockwise exhausts the search, and the ReferenceError leaves it turned at x = 2, overlapping the stack |
| Controller.Decode | tetris.js:265-277 | exactly keys 37, 39, 40, 81 and 87 give a command; 40 and only 40 drops; 37 and 39 move, 81 and 87 turn; direction is +1 exactly for 39 and 87 and −1 otherwise |
| Controller.DecodeRoundTrip | tetris.js:265-277 | each decoded key is the key of its command, and each of the five commands decodes from its key |
| Controller.Kick | tetris.js:192-200 | the loop on the piece array computes the kick search over the collision test of the turned piece |
| Controller.ZeroFill | tetris.js:179 | every row of the arena filled with 0, each keeping its length |
| Controller.RowFull | tetris.js:11-16 | the inner scan reports a row full exactly when none of its cells is 0 |
| Controller.NewPiece | tetris.js:173 | a fresh square array holding the chosen shape, a new matrix on every spawn |
| Controller.Game.constructor | tetris.js:245-279 | a 20 × 12 all-zero arena, score 0, and the first piece spawned at y = 0, centred |
| Controller.Game.PlayerReset | tetris.js:170-184 | the state becomes the reset of the old board with shape `'ILJOTSZ'[pick]`, in a fresh matrix; `Valid()` holds |
| Controller.Game.Spawn | tetris.js:174-183 | the state becomes the reset of the old board with the given shape; `Valid()` holds |
| Controller.Game.PlayerMove | tetris.js:161-168 | only `pos` changes, to the move's transition; `Valid()` is kept |
| Controller.Game.Merge | tetris.js:133-143 | the arena becomes the merge of the piece at its position |
| Controller.Game.ArenaSweep | tetris.js:7-33 | the scan loop with splice, unshift and `y++` leaves the arena and score of `Sweep` |
| Controller.Game.LockPiece | tetris.js:151-154 | the state becomes the lock transition (merge, reset, sweep); `Valid()` holds |
| Controller.Game.PlayerDrop | tetris.js:145-159 | the state becomes the drop transition, and the drop counter is 0 afterwards either way |
| Controller.Game.PlayerRotate | tetris.js:186-201 | the matrix is turned in place and the state becomes the repaired rotation's; `settled` is true exactly when the kick search settles |
| Controller.Game.Update | tetris.js:229-236 | the elapsed time is added to the drop counter, and a drop happens exactly when the counter exceeds 500 |
| Controller.Game.HandleKey | tetris.js:265-277 | the decoded command runs its operation; any other key leaves the state unchanged |

## Left out

- Rendering is not modelled: the canvas setup, `draw`, `drawMatrix` and the `colours` table (tetris.js:1-5, 108-129, 248-257).
- Output is not modelled: `updateScore` and `console.log` (tetris.js:241-243, 31).
- `requestAnimationFrame` and the listener wiring are host event-loop plumbing. `Update` takes the frame time as an integer argument, and `HandleKey` takes the key code.
- `Math.random` (tetris.js:173) is a nondeterministic foreign call. Every operation that spawns takes the index `pick` instead.
- Frame times are JavaScript doubles. Here `time`, `lastTime` and `dropCounter` are integers, and the score is an unbounded `nat`.
- The arena is fixed at 20 × 12, as the program builds it. `CreateMatrix` itself takes any natural w and h; a negative h would never stop `while (h--)`.
- `createPiece` with an unknown letter returns `undefined`; here that is `None`. Spawning only ever asks for one of the seven letters.
- The first `collide(arena, player)` call at tetris.js:149 discards its result and changes nothing, so it is not modelled.
- The local string `pieces` (tetris.js:171) becomes the constant `Pieces.SpawnOrder`.
- Row arrays are not modelled as shared objects, in three places:
  - `matrix.reverse()` exchanges row objects. `Rotation.ReverseRowOrder` exchanges row contents, which leaves the same values.
  - `arenaSweep` reuses the removed row object as the new top row. `Controller.Game.ArenaSweep` builds a new zero row in a local grid and assigns the arena once at the end.
  - The arena is a sequence value, so no row is shared with any other structure.
- Controller.Game.Spawn builds the new matrix and tests it for collision before assigning `matrix` and `pos`. The source assigns them first, then tests; the final state is the same.
- The invariant `Valid()` does not include "the active piece does not overlap the arena". After a lock, the sweep runs after the new piece has spawned. A sweep can shift blocks into the new piece's cells, so no such invariant holds in the source. The invariant is kept that every block of the piece lies inside the arena.
- Controller.Game.PlayerRotate: on an exhausted search the source throws a ReferenceError (see Findings). The method models the repaired behaviour; `Rules.RotatedAsWritten` models the behaviour as written.

## Findings

| source | as written | input that shows it | evidently intended | confidence | as-written member | corrected member |
|---|---|---|---|---|---|---|
| tetris.js:197 | when the kick search gives up, `rotate(player.matrix, -dir)` names the undeclared `dir`, so a ReferenceError escapes; the piece stays turned at the shifted x the search last reached, and the x saved at tetris.js:187 is never restored | a 20 × 12 arena filled except column 5, and the vertical I piece at (4, 0); rotating clockwise tests x = 4, 5, 3, 6, all colliding, then aborts, leaving the turned piece at x = 2, overlapping the stack | turn back with the opposite direction and restore the saved x, so the board is as before the key press | not executed | Rules.AbortAsWrittenOverlaps | Rules.RotateKeepsFree |
