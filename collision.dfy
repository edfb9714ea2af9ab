/**
 * Collision and merge: `collide` (tetris.js:35-52) and the placement that
 * `merge` writes (tetris.js:133-143).
 *
 * `collide` tests `(arena[y + o.y] && arena[y + o.y][x + o.x]) !== 0`. A row
 * or column that does not exist reads as `undefined`, and `undefined !== 0`,
 * so a non-zero piece cell outside the arena on any side collides: that is
 * what makes the floor and both walls solid.
 */
module Collision {
  import opened Grid

  /** The arena offset of the active piece's top-left cell (`player.pos`). */
  datatype Pos = Pos(x: int, y: int)

  /** Arena cell (r, c) cannot take a piece cell: it does not exist, or it is not 0. */
  predicate Blocked(arena: Matrix, r: int, c: int)
  {
    !(0 <= r < |arena| && 0 <= c < |arena[r]| && arena[r][c] == 0)
  }

  /**
   * What `collide(arena, player)` decides: some non-zero cell of the piece
   * lands outside the arena (on any side) or on a non-zero arena cell. Zero
   * cells of the piece are never tested.
   */
  predicate Collide(arena: Matrix, m: Matrix, pos: Pos)
  {
    exists i, j :: 0 <= i < |m| && 0 <= j < |m[i]| && m[i][j] != 0 && Blocked(arena, i + pos.y, j + pos.x)
  }

  /**
   * `collide(arena, player)`: scans the piece row by row, left to right, and
   * returns true at the first non-zero cell whose arena cell is missing or
   * non-zero.
   */
  method DetectCollision(arena: Matrix, m: array2<int>, pos: Pos) returns (hit: bool)
    ensures hit == Collide(arena, Cells(m), pos)
  {
    ghost var g := Cells(m);
    var y := 0;
    while y < m.Length0
      invariant 0 <= y <= m.Length0
      invariant forall i, j :: 0 <= i < y && 0 <= j < m.Length1 && g[i][j] != 0 ==>
        !Blocked(arena, i + pos.y, j + pos.x)
    {
      var x := 0;
      while x < m.Length1
        invariant 0 <= x <= m.Length1
        invariant forall j :: 0 <= j < x && g[y][j] != 0 ==> !Blocked(arena, y + pos.y, j + pos.x)
      {
        if m[y, x] != 0 && Blocked(arena, y + pos.y, x + pos.x) {
          return true;
        }
        x := x + 1;
      }
      y := y + 1;
    }
    return false;
  }

  /** Every non-zero cell of the piece lands inside the arena. */
  predicate Fits(arena: Matrix, m: Matrix, pos: Pos)
  {
    forall i, j :: 0 <= i < |m| && 0 <= j < |m[i]| && m[i][j] != 0 ==>
      0 <= i + pos.y < |arena| && 0 <= j + pos.x < |arena[i + pos.y]|
  }

  /** A piece that does not collide lies inside the arena. */
  lemma FreeFits(arena: Matrix, m: Matrix, pos: Pos)
    requires !Collide(arena, m, pos)
    ensures Fits(arena, m, pos)
  {
  }

  /** Whether a piece fits depends only on the arena's dimensions. */
  lemma FitsAnyContents(a: Matrix, b: Matrix, m: Matrix, pos: Pos, h: nat, w: nat)
    requires IsGrid(a, h, w) && IsGrid(b, h, w) && Fits(a, m, pos)
    ensures Fits(b, m, pos)
  {
  }

  /** A piece that fits collides only by overlapping a non-zero arena cell. */
  lemma {:induction false} FittingCollision(arena: Matrix, m: Matrix, pos: Pos)
    requires Fits(arena, m, pos)
    ensures Collide(arena, m, pos) <==>
      exists i, j :: 0 <= i < |m| && 0 <= j < |m[i]| && m[i][j] != 0 && arena[i + pos.y][j + pos.x] != 0
  {
  }

  /** On an all-zero arena, a piece collides exactly when it does not fit. */
  lemma EmptyArenaCollision(arena: Matrix, m: Matrix, pos: Pos)
    requires AllZero(arena)
    ensures Collide(arena, m, pos) <==> !Fits(arena, m, pos)
  {
  }

  /** Piece cell (i, j) covers arena cell (i + pos.y, j + pos.x) with a non-zero value. */
  predicate Covers(m: Matrix, pos: Pos, r: int, c: int)
  {
    0 <= r - pos.y < |m| && 0 <= c - pos.x < |m[r - pos.y]| && m[r - pos.y][c - pos.x] != 0
  }

  /**
   * The arena after `merge`: each non-zero piece cell's value is written at
   * its offset; every other cell and the dimensions are kept.
   */
  function Merged(arena: Matrix, m: Matrix, pos: Pos): (r: Matrix)
    ensures |r| == |arena| && forall k :: 0 <= k < |arena| ==> |r[k]| == |arena[k]|
    ensures Fits(arena, m, pos) ==>
      forall i, j :: 0 <= i < |m| && 0 <= j < |m[i]| && m[i][j] != 0 ==> r[i + pos.y][j + pos.x] == m[i][j]
    ensures forall a, c :: 0 <= a < |arena| && 0 <= c < |arena[a]| && !Covers(m, pos, a, c) ==> r[a][c] == arena[a][c]
  {
    seq(|arena|, a requires 0 <= a < |arena| =>
      seq(|arena[a]|, c requires 0 <= c < |arena[a]| =>
        if Covers(m, pos, a, c) then m[a - pos.y][c - pos.x] else arena[a][c]))
  }

  /** Once merged, a piece with at least one non-zero cell collides where it was merged. */
  lemma {:induction false} MergedCollides(arena: Matrix, m: Matrix, pos: Pos)
    requires Fits(arena, m, pos) && Occupied(m) != {}
    ensures Collide(Merged(arena, m, pos), m, pos)
  {
    var p :| p in Occupied(m);
    var r := Merged(arena, m, pos);
    assert r[p.0 + pos.y][p.1 + pos.x] == m[p.0][p.1] != 0;
  }

  /** Merging only adds blocks: a cell that was non-zero stays non-zero. */
  lemma MergeKeepsBlocks(arena: Matrix, m: Matrix, pos: Pos, a: int, c: int)
    requires 0 <= a < |arena| && 0 <= c < |arena[a]| && arena[a][c] != 0
    ensures Merged(arena, m, pos)[a][c] != 0
  {
  }
}
