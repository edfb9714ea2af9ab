/**
 * The game's state transitions on values: the arena, the active piece, its
 * position and the score, as `playerMove` (tetris.js:161-168),
 * `playerReset` (tetris.js:170-184), `playerDrop` (tetris.js:145-159) and
 * `playerRotate` (tetris.js:186-201) change them. The methods of
 * `Controller.Game` are proved to perform exactly these transitions.
 */
module Rules {
  import opened Grid
  import opened Pieces
  import opened Collision
  import opened Rotation
  import opened LineClear
  import opened KickSearch

  /** The arena built at start-up is `createMatrix(12, 20)`. */
  const ArenaWidth := 12
  const ArenaHeight := 20

  /** `dropInterval`: gravity drops the piece once more than this much time has gathered. */
  const DropInterval := 500

  /** The arena, the active piece's cells and position, and the score. */
  datatype Board = Board(arena: Matrix, piece: Matrix, pos: Pos, score: nat)

  /**
   * What every operation keeps: a 20-by-12 arena and a square piece of side
   * 2..4 whose non-zero cells all lie inside the arena.
   */
  predicate Wf(b: Board)
  {
    IsGrid(b.arena, ArenaHeight, ArenaWidth) && IsSquare(b.piece) && 2 <= |b.piece| <= 4 &&
    Fits(b.arena, b.piece, b.pos)
  }

  /** Where a new piece of width `n` appears: row 0, x = floor(w / 2) - floor(n / 2). */
  function SpawnPos(w: nat, n: nat): Pos
  {
    Pos(w / 2 - n / 2, 0)
  }

  /** Whether the piece `g` collides at column x in row y: the test the kick search repeats. */
  function ColumnTest(arena: Matrix, g: Matrix, y: int): int -> bool
  {
    x => Collide(arena, g, Pos(x, y))
  }

  /** `playerMove(direction)`: shift x by `direction`, and shift back if that collides. */
  function Moved(b: Board, direction: int): Board
  {
    var to := b.pos.(x := b.pos.x + direction);
    if Collide(b.arena, b.piece, to) then b else b.(pos := to)
  }

  /**
   * `playerReset` with `shape` as the new piece: place it at the spawn
   * position; if it collides there, the game is over: every arena cell
   * becomes 0 and the score 0.
   */
  function Respawned(b: Board, shape: Matrix): Board
    requires |b.arena| > 0 && |shape| > 0
  {
    var at := SpawnPos(|b.arena[0]|, |shape[0]|);
    if Collide(b.arena, shape, at) then Board(Cleared(b.arena), shape, at, 0)
    else b.(piece := shape, pos := at)
  }

  /** The lock of `playerDrop`, in the source's order: merge, then reset, then sweep. */
  function Locked(b: Board, shape: Matrix): Board
    requires Wf(b) && IsSquare(shape) && |shape| > 0
  {
    var r := Respawned(b.(arena := Merged(b.arena, b.piece, b.pos)), shape);
    GridUniform(r.arena, ArenaHeight, ArenaWidth);
    var s := Sweep(r.arena);
    r.(arena := s.arena, score := r.score + s.points)
  }

  /** `playerDrop`: one row down if that is free, otherwise lock the piece at its current row. */
  function Dropped(b: Board, shape: Matrix): Board
    requires Wf(b) && IsSquare(shape) && |shape| > 0
  {
    var below := b.pos.(y := b.pos.y + 1);
    if !Collide(b.arena, b.piece, below) then b.(pos := below) else Locked(b, shape)
  }

  /**
   * `playerRotate(direction)` with its abort repaired: turn the piece, then
   * run the kick search; if the search gives up, turn back the opposite way
   * and restore the x saved on entry.
   */
  function Rotated(b: Board, direction: int): Board
    requires Wf(b)
  {
    var t := Turned(b.piece, direction);
    match KickFrom(ColumnTest(b.arena, t, b.pos.y), b.pos.x, 1, |t[0]|)
    case Settled(x) => b.(piece := t, pos := b.pos.(x := x))
    case Abandoned(_) => b.(piece := Turned(t, Opposite(direction)), pos := b.pos.(x := b.pos.x))
  }

  lemma GridUniform(a: Matrix, h: nat, w: nat)
    requires IsGrid(a, h, w) && (w > 0 || h == 0)
    ensures Uniform(a)
  {
  }

  /** A square piece of side 1..4 fits at the spawn position of a 20-by-12 arena. */
  lemma SpawnFits(a: Matrix, g: Matrix)
    requires IsGrid(a, ArenaHeight, ArenaWidth) && IsSquare(g) && 1 <= |g| <= 4
    ensures Fits(a, g, SpawnPos(ArenaWidth, |g[0]|))
  {
  }

  /**
   * `playerMove`: x ends at x + direction, or stays where it was when that
   * collides; nothing else changes; a piece that did not collide still does
   * not, and the invariant holds.
   */
  lemma MoveRules(b: Board, direction: int)
    requires Wf(b)
    ensures var r := Moved(b, direction);
      r.arena == b.arena && r.piece == b.piece && r.score == b.score && r.pos.y == b.pos.y &&
      (if Collide(b.arena, b.piece, Pos(b.pos.x + direction, b.pos.y)) then r.pos.x == b.pos.x
       else r.pos.x == b.pos.x + direction) &&
      (!Collide(b.arena, b.piece, b.pos) ==> !Collide(r.arena, r.piece, r.pos)) &&
      Wf(r)
  {
    var r := Moved(b, direction);
    if r != b {
      FreeFits(b.arena, b.piece, r.pos);
    }
  }

  /** The invariant part of MoveRules on its own. */
  lemma MovedWf(b: Board, direction: int)
    requires Wf(b)
    ensures Wf(Moved(b, direction))
  {
    MoveRules(b, direction);
  }

  /** A piece with a block in column 0 cannot move left, and one with a block in the last column cannot move right. */
  lemma WallsHold(b: Board, i: int, j: int)
    requires Wf(b) && 0 <= i < |b.piece| && 0 <= j < |b.piece| && b.piece[i][j] != 0
    ensures j + b.pos.x == 0 ==> Moved(b, -1) == b
    ensures j + b.pos.x == ArenaWidth - 1 ==> Moved(b, 1) == b
  {
  }

  /**
   * `playerReset`: the new piece stands at row 0, centred; when it collides
   * there the arena is all zeros and the score 0, otherwise both are kept.
   */
  lemma ResetRules(b: Board, shape: Matrix)
    requires IsGrid(b.arena, ArenaHeight, ArenaWidth) && IsSquare(shape) && 2 <= |shape| <= 4
    ensures var r := Respawned(b, shape);
      r.piece == shape && r.pos == Pos(ArenaWidth / 2 - |shape| / 2, 0) &&
      (Collide(b.arena, shape, r.pos) ==>
        IsGrid(r.arena, ArenaHeight, ArenaWidth) && AllZero(r.arena) && r.score == 0) &&
      (!Collide(b.arena, shape, r.pos) ==> r.arena == b.arena && r.score == b.score) &&
      Wf(r)
  {
    var r := Respawned(b, shape);
    SpawnFits(r.arena, shape);
  }

  /** The invariant part of ResetRules on its own. */
  lemma RespawnedWf(b: Board, shape: Matrix)
    requires IsGrid(b.arena, ArenaHeight, ArenaWidth) && IsSquare(shape) && 2 <= |shape| <= 4
    ensures Wf(Respawned(b, shape))
  {
    ResetRules(b, shape);
  }

  /** A sweep of an all-zero arena changes nothing. */
  lemma SweepZeroArena(a: Matrix)
    requires IsGrid(a, ArenaHeight, ArenaWidth) && AllZero(a)
    ensures Uniform(a) && Sweep(a) == Swept(a, 0)
  {
    forall r | 1 <= r < |a|
      ensures !Full(a[r])
    {
      assert a[r][0] == 0;
    }
    NoFullRows(a[1..]);
  }

  /**
   * The lock: the piece is merged at its row, a new piece spawns (the
   * game-over test sees the merged arena before any line is cleared) and
   * then full lines are swept. After a game over the arena is all zeros and
   * the score 0; otherwise the score grows by 10 * (2^k - 1) for the k lines
   * the sweep clears.
   */
  lemma LockRules(b: Board, shape: Matrix)
    requires Wf(b) && IsSquare(shape) && 2 <= |shape| <= 4
    ensures var r := Locked(b, shape);
      var merged := Merged(b.arena, b.piece, b.pos);
      var spawn := Pos(ArenaWidth / 2 - |shape| / 2, 0);
      Uniform(merged) &&
      r.piece == shape && r.pos == spawn &&
      (Collide(merged, shape, spawn) ==> AllZero(r.arena) && r.score == 0) &&
      (!Collide(merged, shape, spawn) ==>
        r.arena == Sweep(merged).arena && r.score == b.score + Award(ClearedCount(merged))) &&
      Wf(r)
  {
    var merged := Merged(b.arena, b.piece, b.pos);
    var m := b.(arena := merged);
    assert IsGrid(merged, ArenaHeight, ArenaWidth);
    ResetRules(m, shape);
    var reset := Respawned(m, shape);
    SweepKeepsShape(reset.arena, ArenaHeight, ArenaWidth);
    FitsAnyContents(reset.arena, Sweep(reset.arena).arena, shape, reset.pos, ArenaHeight, ArenaWidth);
    if Collide(merged, shape, reset.pos) {
      SweepZeroArena(reset.arena);
    }
  }

  /** The invariant part of LockRules on its own. */
  lemma LockedWf(b: Board, shape: Matrix)
    requires Wf(b) && IsSquare(shape) && 2 <= |shape| <= 4
    ensures Wf(Locked(b, shape))
  {
    LockRules(b, shape);
  }

  /**
   * `playerDrop`: when the row below is free only y grows by one; otherwise
   * the piece locks at its current row. Either way the invariant holds.
   */
  lemma DropRules(b: Board, shape: Matrix)
    requires Wf(b) && IsSquare(shape) && 2 <= |shape| <= 4
    ensures var below := Pos(b.pos.x, b.pos.y + 1);
      (!Collide(b.arena, b.piece, below) ==> Dropped(b, shape) == b.(pos := below)) &&
      (Collide(b.arena, b.piece, below) ==> Dropped(b, shape) == Locked(b, shape)) &&
      Wf(Dropped(b, shape))
  {
    var below := Pos(b.pos.x, b.pos.y + 1);
    if !Collide(b.arena, b.piece, below) {
      FreeFits(b.arena, b.piece, below);
    } else {
      LockRules(b, shape);
    }
  }

  /** The invariant part of DropRules on its own. */
  lemma DroppedWf(b: Board, shape: Matrix)
    requires Wf(b) && IsSquare(shape) && 2 <= |shape| <= 4
    ensures Wf(Dropped(b, shape))
  {
    DropRules(b, shape);
  }

  /**
   * `playerRotate`, repaired: when the search settles the piece is the
   * turned one, does not collide, and x moved by a prefix sum of 1, -2, 3,
   * ... among the first width + 1 tries (not at all when the turned piece
   * was free where it stood); when it gives up the board is unchanged, so
   * a settled search is the only way the board changes.
   * Row, arena and score never change, and the invariant holds.
   */
  lemma RotateRules(b: Board, direction: int)
    requires Wf(b)
    ensures var t := Turned(b.piece, direction);
      var r := Rotated(b, direction);
      r.arena == b.arena && r.score == b.score && r.pos.y == b.pos.y &&
      (r == b || (r.piece == t && !Collide(r.arena, r.piece, r.pos) &&
        exists j :: 0 <= j <= |t| && r.pos.x == b.pos.x + Nudge(j))) &&
      (!Collide(b.arena, t, b.pos) ==> r == b.(piece := t)) &&
      (KickFrom(ColumnTest(b.arena, t, b.pos.y), b.pos.x, 1, |t[0]|).Abandoned? ==> r == b) &&
      (KickFrom(ColumnTest(b.arena, t, b.pos.y), b.pos.x, 1, |t[0]|).Settled? ==>
        r.piece == t && !Collide(r.arena, r.piece, r.pos)) &&
      Wf(r)
  {
    var t := Turned(b.piece, direction);
    var test := ColumnTest(b.arena, t, b.pos.y);
    KickOutcome(test, b.pos.x, |t[0]|);
    UndoTurn(b.piece, direction);
    var r := Rotated(b, direction);
    if r.piece == t && KickFrom(test, b.pos.x, 1, |t[0]|).Settled? {
      FreeFits(r.arena, r.piece, r.pos);
    }
  }

  /** The invariant part of RotateRules on its own. */
  lemma RotatedWf(b: Board, direction: int)
    requires Wf(b)
    ensures Wf(Rotated(b, direction))
  {
    RotateRules(b, direction);
  }

  /**
   * `playerRotate` exactly as written: when the search gives up, the abort
   * path calls `rotate(player.matrix, -dir)`, and `dir` is declared nowhere,
   * so a ReferenceError escapes and the piece is left turned, at the
   * shifted x the search last reached.
   */
  datatype RotateAsWritten = Finished(board: Board) | ReferenceError(board: Board)

  function RotatedAsWritten(b: Board, direction: int): RotateAsWritten
    requires Wf(b)
  {
    var t := Turned(b.piece, direction);
    match KickFrom(ColumnTest(b.arena, t, b.pos.y), b.pos.x, 1, |t[0]|)
    case Settled(x) => Finished(b.(piece := t, pos := b.pos.(x := x)))
    case Abandoned(x) => ReferenceError(b.(piece := t, pos := b.pos.(x := x)))
  }

  /** Where the search settles, the source and the repaired rotation agree. */
  lemma AsWrittenAgreesWhenSettled(b: Board, direction: int)
    requires Wf(b) && RotatedAsWritten(b, direction).Finished?
    ensures RotatedAsWritten(b, direction).board == Rotated(b, direction)
  {
  }

  /** A one-column shaft: every cell filled except those of column 5. */
  function Shaft(): (a: Matrix)
    ensures IsGrid(a, ArenaHeight, ArenaWidth)
  {
    seq(ArenaHeight, r => seq(ArenaWidth, c => if c == 5 then 0 else 1))
  }

  lemma IPieceColumn(i: int, j: int)
    requires 0 <= i < 4 && 0 <= j < 4
    ensures IPiece[i][j] != 0 <==> j == 1
  {
  }

  /**
   * The abort path as written leaves the game broken: a vertical I piece
   * standing free in the shaft is turned clockwise, all four tested columns
   * collide, and the ReferenceError leaves the turned piece at x = 2,
   * overlapping the stack.
   */
  lemma AbortAsWrittenOverlaps()
    ensures var b := Board(Shaft(), IPiece, Pos(4, 0), 0);
      Wf(b) && !Collide(b.arena, b.piece, b.pos) &&
      RotatedAsWritten(b, 1).ReferenceError? &&
      var after := RotatedAsWritten(b, 1).board;
      after.pos.x == 2 && Collide(after.arena, after.piece, after.pos)
  {
    var b := Board(Shaft(), IPiece, Pos(4, 0), 0);
    forall i, j | 0 <= i < 4 && 0 <= j < 4 && IPiece[i][j] != 0
      ensures 0 <= i + 0 < ArenaHeight && j + 4 == 5 && Shaft()[i][j + 4] == 0
    {
      IPieceColumn(i, j);
    }
    assert Wf(b);
    var t := Turned(IPiece, 1);
    assert t[1][0] != 0 && t[1][1] != 0;
    var test := ColumnTest(Shaft(), t, 0);
    assert test(4) by { assert Shaft()[1][4] != 0; }
    assert test(5) by { assert Shaft()[1][6] != 0; }
    assert test(3) by { assert Shaft()[1][3] != 0; }
    assert test(6) by { assert Shaft()[1][6] != 0; }
    assert test(2) by { assert Shaft()[1][2] != 0; }
    TestedColumns();
    KickOutcome(test, 4, 4);
  }

  /**
   * The repaired rotation never leaves the piece overlapping: when it
   * starts free, it ends free, whether the search settles or gives up.
   */
  lemma RotateKeepsFree(b: Board, direction: int)
    requires Wf(b) && !Collide(b.arena, b.piece, b.pos)
    ensures !Collide(b.arena, Rotated(b, direction).piece, Rotated(b, direction).pos)
  {
    RotateRules(b, direction);
  }
}
