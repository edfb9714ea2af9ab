/**
 * The game controller of tetris.js: the global `arena` and `player`, the
 * `dropCounter` of `update`, and the operations that change them, as one
 * object. The piece matrix is a two-dimensional array that `rotate` turns
 * in place and `playerReset` replaces by a fresh one.
 */
module Controller {
  import opened Wrappers
  import opened Grid
  import opened Pieces
  import opened Collision
  import opened Rotation
  import opened LineClear
  import opened KickSearch
  import opened Rules

  /** The decoded player commands. */
  datatype Command = Move(direction: int) | SoftDrop | Turn(direction: int)

  /**
   * The `keydown` dispatch: left arrow (37) and right arrow (39) move, down
   * arrow (40) drops, Q (81) turns counter-clockwise and W (87) clockwise;
   * every other key does nothing.
   */
  function Decode(keyCode: int): (c: Option<Command>)
    ensures c.Some? <==> keyCode in {37, 39, 40, 81, 87}
    ensures c.Some? ==> (c.value.SoftDrop? <==> keyCode == 40)
    ensures c.Some? && !c.value.SoftDrop? ==>
      (c.value.Move? <==> keyCode in {37, 39}) &&
      (c.value.direction == 1 || c.value.direction == -1) &&
      (c.value.direction == 1 <==> keyCode in {39, 87})
  {
    if keyCode == 37 then Some(Move(-1))
    else if keyCode == 39 then Some(Move(1))
    else if keyCode == 40 then Some(SoftDrop)
    else if keyCode == 81 then Some(Turn(-1))
    else if keyCode == 87 then Some(Turn(1))
    else None
  }

  /** The key that issues a command (the arrow keys, Q and W). */
  function KeyCode(c: Command): int
  {
    match c
    case Move(d) => if d > 0 then 39 else 37
    case SoftDrop => 40
    case Turn(d) => if d > 0 then 87 else 81
  }

  /** Every command the keyboard can issue is decoded from its key, and every decoded key is that command's key. */
  lemma DecodeRoundTrip(keyCode: int, c: Command)
    ensures Decode(keyCode).Some? ==> KeyCode(Decode(keyCode).value) == keyCode
    ensures c in {Move(-1), Move(1), SoftDrop, Turn(-1), Turn(1)} ==> Decode(KeyCode(c)) == Some(c)
  {
  }

  /**
   * The `while (collide(arena, player))` loop of `playerRotate` for the
   * turned piece in `m` at row `y`, starting at column `x0`: shift x by the
   * offsets 1, -2, 3, ..., and give up once the next offset exceeds the
   * matrix width. `test` is the collision test of that piece at row `y`, as
   * a function of x; the loop runs `KickFrom` over it.
   */
  method Kick(arena: Matrix, m: array2<int>, y: int, x0: int, ghost test: int -> bool) returns (end: KickEnd)
    requires 1 <= m.Length1
    requires forall x {:trigger Collide(arena, Cells(m), Pos(x, y))} :: test(x) == Collide(arena, Cells(m), Pos(x, y))
    ensures end == KickFrom(test, x0, 1, m.Length1)
  {
    var width := m.Length1;
    var x := x0;
    var offset := 1;
    var hit := DetectCollision(arena, m, Pos(x, y));
    while hit
      invariant 1 <= Abs(offset) <= width + 1 && (offset > 0 ==> offset <= width)
      invariant KickFrom(test, x, offset, width) == KickFrom(test, x0, 1, width)
      invariant hit == test(x)
      decreases width + 1 - Abs(offset)
    {
      KickStep(test, x, offset, width);
      x := x + offset;
      offset := -(offset + (if offset > 0 then 1 else -1));
      if offset > width {
        return Abandoned(x);
      }
      hit := DetectCollision(arena, m, Pos(x, y));
    }
    return Settled(x);
  }

  /** The game-over wipe of `playerReset`: every row filled with 0, its length kept. */
  method ZeroFill(g: Matrix) returns (r: Matrix)
    ensures r == Cleared(g)
  {
    r := g;
    var k := 0;
    while k < |r|
      invariant 0 <= k <= |r| == |g|
      invariant forall i :: 0 <= i < k ==> r[i] == Zeros(|g[i]|)
      invariant forall i :: k <= i < |r| ==> r[i] == g[i]
    {
      r := r[k := Zeros(|r[k]|)];
      k := k + 1;
    }
  }

  /** The inner scan of `arenaSweep`: a row is full when no cell, left to right, is 0. */
  method RowFull(row: seq<int>) returns (full: bool)
    ensures full == Full(row)
  {
    var x := 0;
    while x < |row|
      invariant 0 <= x <= |row|
      invariant forall c :: 0 <= c < x ==> row[c] != 0
    {
      if row[x] == 0 {
        return false;
      }
      x := x + 1;
    }
    return true;
  }

  /** A fresh two-dimensional array holding the cells of `shape`, as `createPiece` returns a new matrix on every call. */
  method NewPiece(shape: Matrix) returns (m: array2<int>)
    requires IsSquare(shape)
    ensures fresh(m) && m.Length0 == m.Length1 == |shape| && Cells(m) == shape
  {
    var n := |shape|;
    m := new int[n, n]((i, j) requires 0 <= i < n && 0 <= j < n => shape[i][j]);
    SameGrid(Cells(m), shape, n, n);
  }

  class Game {
    var arena: Matrix
    var matrix: array2<int>
    var pos: Pos
    var score: nat
    var dropCounter: int
    var lastTime: int
    /** The cells `matrix` holds, kept alongside it. */
    ghost var piece: Matrix

    /** The board the fields hold. */
    ghost function View(): Board
      reads this
    {
      Board(arena, piece, pos, score)
    }

    ghost predicate Valid()
      reads this, matrix
    {
      matrix.Length0 == matrix.Length1 && Cells(matrix) == piece && Wf(View())
    }

    /**
     * Start-up: `createMatrix(12, 20)`, a player at (0, 0) with score 0, and
     * the first `playerReset`, here with spawn index `pick`.
     */
    constructor (pick: nat)
      requires pick < |SpawnOrder|
      ensures Valid() && fresh(matrix)
      ensures IsGrid(arena, ArenaHeight, ArenaWidth) && AllZero(arena)
      ensures piece == SpawnShape(pick) && pos == SpawnPos(ArenaWidth, |piece|)
      ensures score == 0 && dropCounter == 0 && lastTime == 0
    {
      var grid := CreateMatrix(ArenaWidth, ArenaHeight);
      arena := grid;
      matrix := new int[0, 0];
      piece := [];
      pos := Pos(0, 0);
      score := 0;
      dropCounter := 0;
      lastTime := 0;
      new;
      ghost var start := arena;
      PlayerReset(pick);
      SpawnFits(start, SpawnShape(pick));
      EmptyArenaCollision(start, SpawnShape(pick), pos);
    }

    /**
     * `playerReset`: a fresh copy of the shape chosen by `pick` becomes the
     * piece, at row 0 and centred; if it collides there, every row is
     * zero-filled and the score reset to 0.
     */
    method PlayerReset(pick: nat)
      requires pick < |SpawnOrder| && IsGrid(arena, ArenaHeight, ArenaWidth)
      modifies this`matrix, this`piece, this`pos, this`arena, this`score
      ensures fresh(matrix) && Valid()
      ensures View() == Respawned(old(View()), SpawnShape(pick))
    {
      var shape := SpawnShape(pick);
      Spawn(shape);
    }

    /** `playerReset` once the random draw has chosen `shape`. */
    method Spawn(shape: Matrix)
      requires IsSquare(shape) && 2 <= |shape| <= 4 && IsGrid(arena, ArenaHeight, ArenaWidth)
      modifies this`matrix, this`piece, this`pos, this`arena, this`score
      ensures fresh(matrix) && Valid()
      ensures View() == Respawned(old(View()), shape)
    {
      ghost var b := View();
      var m := NewPiece(shape);
      var spawn := Pos(|arena[0]| / 2 - m.Length1 / 2, 0);
      assert spawn == SpawnPos(|b.arena[0]|, |shape[0]|);
      var hit := DetectCollision(arena, m, spawn);
      assert hit == Collide(b.arena, shape, spawn);
      matrix, piece, pos := m, shape, spawn;
      if hit {
        arena := ZeroFill(arena);
        score := 0;
      }
      assert View() == Respawned(b, shape);
      RespawnedWf(b, shape);
    }

    /** `playerMove(direction)`: shift x, and shift it back when the piece then collides. */
    method PlayerMove(direction: int)
      requires Valid()
      modifies this`pos
      ensures Valid() && View() == Moved(old(View()), direction)
    {
      ghost var b := View();
      pos := pos.(x := pos.x + direction);
      var hit := DetectCollision(arena, matrix, pos);
      if hit {
        pos := pos.(x := pos.x - direction);
      }
      assert View() == Moved(b, direction);
      MovedWf(b, direction);
    }

    /** `merge(arena, player)`: writes each non-zero piece cell into the arena at its offset. */
    method Merge()
      requires Valid()
      modifies this`arena
      ensures arena == Merged(old(arena), piece, pos)
    {
      var grid := arena;
      var n := matrix.Length0;
      var i := 0;
      while i < n
        invariant 0 <= i <= n
        invariant IsGrid(grid, ArenaHeight, ArenaWidth)
        invariant forall r, c :: 0 <= r < ArenaHeight && 0 <= c < ArenaWidth ==>
          grid[r][c] == if Covers(piece, pos, r, c) && r - pos.y < i then piece[r - pos.y][c - pos.x] else arena[r][c]
      {
        var j := 0;
        while j < n
          invariant 0 <= j <= n
          invariant IsGrid(grid, ArenaHeight, ArenaWidth)
          invariant forall r, c :: 0 <= r < ArenaHeight && 0 <= c < ArenaWidth ==>
            grid[r][c] == if Covers(piece, pos, r, c) && (r - pos.y < i || (r - pos.y == i && c - pos.x < j))
                          then piece[r - pos.y][c - pos.x] else arena[r][c]
        {
          if matrix[i, j] != 0 {
            grid := grid[i + pos.y := grid[i + pos.y][j + pos.x := matrix[i, j]]];
          }
          j := j + 1;
        }
        i := i + 1;
      }
      SameGrid(grid, Merged(arena, piece, pos), ArenaHeight, ArenaWidth);
      arena := grid;
    }

    /**
     * `arenaSweep`: from the bottom row up while y > 0, a full row is taken
     * out and a zero row put on top, the same index is examined again, and
     * the award, starting at 10, is added to the score and doubled.
     */
    method ArenaSweep()
      requires IsGrid(arena, ArenaHeight, ArenaWidth)
      modifies this`arena, this`score
      ensures IsGrid(arena, ArenaHeight, ArenaWidth)
      ensures arena == Sweep(old(arena)).arena && score == old(score) + Sweep(old(arena)).points
    {
      GridUniform(arena, ArenaHeight, ArenaWidth);
      SweepKeepsShape(arena, ArenaHeight, ArenaWidth);
      var grid := arena;
      ghost var goal := SweepFrom(grid, |grid| - 1, 1);
      var rowCount: nat := 1;
      var y := |grid| - 1;
      while y > 0
        invariant -1 <= y < |grid| == ArenaHeight && Uniform(grid)
        invariant SweepFrom(grid, y, rowCount).arena == goal.arena
        invariant score + SweepFrom(grid, y, rowCount).points == old(score) + goal.points
        decreases y + 1, FullCount(grid[..y + 1])
      {
        var full := RowFull(grid[y]);
        if full {
          SweepFromFull(grid, y, rowCount);
          grid := [Zeros(|grid[y]|)] + grid[..y] + grid[y + 1..];
          score := score + rowCount * 10;
          rowCount := rowCount * 2;
        } else {
          assert SweepFrom(grid, y, rowCount) == SweepFrom(grid, y - 1, rowCount);
          y := y - 1;
        }
      }
      arena := grid;
    }

    /** The landing branch of `playerDrop`: merge, then `playerReset`, then `arenaSweep`. */
    method LockPiece(pick: nat)
      requires Valid() && pick < |SpawnOrder|
      modifies this`matrix, this`piece, this`pos, this`arena, this`score
      ensures fresh(matrix) && Valid()
      ensures View() == Locked(old(View()), SpawnShape(pick))
    {
      ghost var b := View();
      ghost var shape := SpawnShape(pick);
      Merge();
      PlayerReset(pick);
      ghost var reset := View();
      ArenaSweep();
      assert reset == Respawned(b.(arena := Merged(b.arena, b.piece, b.pos)), shape);
      LockedWf(b, shape);
    }

    /**
     * `playerDrop`: one row down; if the piece then collides it goes back up,
     * is merged, a new piece spawns, and full lines are swept. The drop
     * counter restarts at 0 either way.
     */
    method PlayerDrop(pick: nat)
      requires Valid() && pick < |SpawnOrder|
      modifies this`matrix, this`piece, this`pos, this`arena, this`score, this`dropCounter
      ensures Valid() && dropCounter == 0
      ensures View() == Dropped(old(View()), SpawnShape(pick))
      ensures matrix == old(matrix) || fresh(matrix)
    {
      ghost var b := View();
      ghost var shape := SpawnShape(pick);
      pos := pos.(y := pos.y + 1);
      var hit := DetectCollision(arena, matrix, pos);
      assert hit == Collide(b.arena, b.piece, pos);
      if hit {
        pos := pos.(y := pos.y - 1);
        LockPiece(pick);
        assert View() == Locked(b, shape);
      }
      dropCounter := 0;
      ghost var r := View();
      assert r == Dropped(b, shape);
      DroppedWf(b, shape);
    }

    /**
     * `playerRotate(direction)` with its abort repaired: the matrix is turned
     * in place and x searched by the kick offsets; when the search gives up,
     * the matrix is turned back the opposite way and x restored, and
     * `settled` is false.
     */
    method PlayerRotate(direction: int) returns (settled: bool)
      requires Valid()
      modifies this`pos, this`piece, matrix
      ensures Valid() && View() == Rotated(old(View()), direction)
      ensures settled <==> KickFrom(ColumnTest(arena, Turned(old(piece), direction), pos.y),
                                    old(pos.x), 1, |piece|).Settled?
    {
      ghost var b := View();
      Rotate(matrix, direction);
      piece := Turned(piece, direction);
      var end := Kick(arena, matrix, pos.y, pos.x, ColumnTest(arena, piece, pos.y));
      if end.Abandoned? {
        Rotate(matrix, Opposite(direction));
        piece := Turned(piece, Opposite(direction));
        settled := false;
      } else {
        pos := pos.(x := end.x);
        settled := true;
      }
      RotatedWf(b, direction);
    }

    /**
     * The game-logic part of `update(time)`: the time since the previous
     * frame is added to the drop counter, and once the counter is more than
     * 500 the piece drops.
     */
    method Update(time: int, pick: nat)
      requires Valid() && pick < |SpawnOrder|
      modifies this
      ensures Valid() && lastTime == time
      ensures old(dropCounter) + (time - old(lastTime)) > DropInterval ==>
        View() == Dropped(old(View()), SpawnShape(pick)) && dropCounter == 0
      ensures old(dropCounter) + (time - old(lastTime)) <= DropInterval ==>
        View() == old(View()) && matrix == old(matrix) && dropCounter == old(dropCounter) + (time - old(lastTime))
    {
      var deltaTime := time - lastTime;
      lastTime := time;
      dropCounter := dropCounter + deltaTime;
      if dropCounter > DropInterval {
        PlayerDrop(pick);
      }
    }

    /** The `keydown` listener: the decoded command runs; other keys change nothing. */
    method HandleKey(keyCode: int, pick: nat)
      requires Valid() && pick < |SpawnOrder|
      modifies this, matrix
      ensures Valid() && lastTime == old(lastTime)
      ensures match Decode(keyCode)
        case None => View() == old(View()) && dropCounter == old(dropCounter)
        case Some(Move(d)) => View() == Moved(old(View()), d) && dropCounter == old(dropCounter)
        case Some(SoftDrop) => View() == Dropped(old(View()), SpawnShape(pick)) && dropCounter == 0
        case Some(Turn(d)) => View() == Rotated(old(View()), d) && dropCounter == old(dropCounter)
    {
      match Decode(keyCode)
      case None =>
      case Some(Move(d)) => PlayerMove(d);
      case Some(SoftDrop) => PlayerDrop(pick);
      case Some(Turn(d)) => var _ := PlayerRotate(d);
    }
  }
}
