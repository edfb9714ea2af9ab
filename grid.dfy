/**
 * Matrix utilities shared by the arena and the pieces: a grid is a sequence
 * of rows, row 0 at the top, and a cell holds 0 (empty) or a piece id 1..7.
 * Models `createMatrix` (tetris.js:54-60).
 */
module Grid {
  type Matrix = seq<seq<int>>

  /** `g` has exactly `h` rows of exactly `w` cells. */
  predicate IsGrid(g: Matrix, h: nat, w: nat)
  {
    |g| == h && forall r :: 0 <= r < h ==> |g[r]| == w
  }

  predicate IsSquare(g: Matrix)
  {
    IsGrid(g, |g|, |g|)
  }

  predicate AllZero(g: Matrix)
  {
    forall r, c :: 0 <= r < |g| && 0 <= c < |g[r]| ==> g[r][c] == 0
  }

  /** A row of `w` empty cells (`new Array(w).fill(0)`). */
  function Zeros(w: nat): (row: seq<int>)
    ensures |row| == w
  {
    seq(w, _ => 0)
  }

  /** Every row of `g` refilled with zeros, lengths kept (`row.fill(0)` on each row). */
  function Cleared(g: Matrix): (r: Matrix)
    ensures |r| == |g| && forall k :: 0 <= k < |g| ==> |r[k]| == |g[k]|
    ensures AllZero(r)
  {
    seq(|g|, k requires 0 <= k < |g| => Zeros(|g[k]|))
  }

  /** The set of coordinates (row, column) of the non-zero cells of `g`. */
  function Occupied(g: Matrix): set<(int, int)>
  {
    set i, j | 0 <= i < |g| && 0 <= j < |g[i]| && g[i][j] != 0 :: (i, j)
  }

  /** The values currently held by a two-dimensional array, as a grid. */
  function Cells(m: array2<int>): (g: Matrix)
    reads m
    ensures IsGrid(g, m.Length0, m.Length1)
    ensures forall i, j :: 0 <= i < m.Length0 && 0 <= j < m.Length1 ==> g[i][j] == m[i, j]
  {
    seq(m.Length0, i requires 0 <= i < m.Length0 reads m =>
      seq(m.Length1, j requires 0 <= j < m.Length1 reads m => m[i, j]))
  }

  /** Two grids of the same shape that agree cell by cell are equal. */
  lemma SameGrid(a: Matrix, b: Matrix, h: nat, w: nat)
    requires IsGrid(a, h, w) && IsGrid(b, h, w)
    requires forall i, j :: 0 <= i < h && 0 <= j < w ==> a[i][j] == b[i][j]
    ensures a == b
  {
    forall i | 0 <= i < h
      ensures a[i] == b[i]
    {
    }
  }

  /**
   * `createMatrix(w, h)`: pushes `h` fresh rows of `w` zeros, counting `h`
   * down as `while (h--)` does. The widths and heights are naturals: the
   * source loop never stops on a negative height.
   */
  method CreateMatrix(w: nat, h: nat) returns (m: Matrix)
    ensures IsGrid(m, h, w) && AllZero(m)
  {
    m := [];
    var left := h;
    while left > 0
      invariant 0 <= left <= h
      invariant IsGrid(m, h - left, w) && AllZero(m)
    {
      m := m + [Zeros(w)];
      left := left - 1;
    }
  }
}
