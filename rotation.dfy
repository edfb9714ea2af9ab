/**
 * Rotation of a square piece matrix: `rotate` (tetris.js:203-223) works in
 * place, first transposing, then reversing each row (direction > 0,
 * clockwise) or reversing the order of the rows (any other direction,
 * including 0: counter-clockwise).
 */
module Rotation {
  import opened Grid

  /** A quarter turn clockwise: new[i][j] = old[n-1-j][i]. */
  function Clockwise(g: Matrix): (r: Matrix)
    requires IsSquare(g)
    ensures IsSquare(r) && |r| == |g|
  {
    var n := |g|;
    seq(n, i requires 0 <= i < n => seq(n, j requires 0 <= j < n => g[n - 1 - j][i]))
  }

  /** A quarter turn counter-clockwise: new[i][j] = old[j][n-1-i]. */
  function CounterClockwise(g: Matrix): (r: Matrix)
    requires IsSquare(g)
    ensures IsSquare(r) && |r| == |g|
  {
    var n := |g|;
    seq(n, i requires 0 <= i < n => seq(n, j requires 0 <= j < n => g[j][n - 1 - i]))
  }

  /** The turn `rotate(matrix, direction)` performs. */
  function Turned(g: Matrix, direction: int): (r: Matrix)
    requires IsSquare(g)
    ensures IsSquare(r) && |r| == |g|
  {
    if direction > 0 then Clockwise(g) else CounterClockwise(g)
  }

  /**
   * A direction whose turn undoes a turn in `direction`. For every direction
   * but 0 it turns the same way as -direction; for 0 (a counter-clockwise
   * turn) -0 would turn counter-clockwise again.
   */
  function Opposite(direction: int): (d: int)
    ensures (d > 0) != (direction > 0)
    ensures direction != 0 ==> ((d > 0) <==> (-direction > 0))
  {
    if direction > 0 then -1 else 1
  }

  /** A clockwise turn followed by a counter-clockwise one restores the matrix, and vice versa. */
  lemma {:induction false} TurnsCancel(g: Matrix)
    requires IsSquare(g)
    ensures CounterClockwise(Clockwise(g)) == g
    ensures Clockwise(CounterClockwise(g)) == g
  {
    var n := |g|;
    SameGrid(CounterClockwise(Clockwise(g)), g, n, n);
    SameGrid(Clockwise(CounterClockwise(g)), g, n, n);
  }

  /** Turning back the opposite way restores the matrix, whatever the direction. */
  lemma UndoTurn(g: Matrix, direction: int)
    requires IsSquare(g)
    ensures Turned(Turned(g, direction), Opposite(direction)) == g
  {
    TurnsCancel(g);
  }

  /** Two clockwise quarter turns make a half turn: new[i][j] = old[n-1-i][n-1-j]. */
  lemma {:induction false} HalfTurn(g: Matrix, i: int, j: int)
    requires IsSquare(g) && 0 <= i < |g| && 0 <= j < |g|
    ensures Clockwise(Clockwise(g))[i][j] == g[|g| - 1 - i][|g| - 1 - j]
  {
  }

  /** Four clockwise quarter turns restore the matrix. */
  lemma {:induction false} FourTurns(g: Matrix)
    requires IsSquare(g)
    ensures Clockwise(Clockwise(Clockwise(Clockwise(g)))) == g
  {
    var n := |g|;
    var h := Clockwise(Clockwise(g));
    forall i, j | 0 <= i < n && 0 <= j < n
      ensures Clockwise(Clockwise(h))[i][j] == g[i][j]
    {
      HalfTurn(h, i, j);
      HalfTurn(g, n - 1 - i, n - 1 - j);
    }
    SameGrid(Clockwise(Clockwise(h)), g, n, n);
  }

  /** The image of a set of cells under a map. */
  function Image(s: set<(int, int)>, f: ((int, int)) -> (int, int)): set<(int, int)>
  {
    set p | p in s :: f(p)
  }

  /** A map that is one-to-one on `s` keeps its size. */
  lemma {:induction false} ImageSize(s: set<(int, int)>, f: ((int, int)) -> (int, int))
    requires forall p, q :: p in s && q in s && f(p) == f(q) ==> p == q
    ensures |Image(s, f)| == |s|
    decreases s
  {
    if s != {} {
      var p :| p in s;
      var rest := s - {p};
      ImageSize(rest, f);
      assert Image(s, f) == Image(rest, f) + {f(p)};
      assert f(p) !in Image(rest, f);
    }
  }

  /** A quarter turn in either direction keeps the number of non-zero cells. */
  lemma {:induction false} TurnKeepsCount(g: Matrix, direction: int)
    requires IsSquare(g)
    ensures |Occupied(Turned(g, direction))| == |Occupied(g)|
  {
    var n := |g|;
    var r := Turned(g, direction);
    var f: ((int, int)) -> (int, int) :=
      if direction > 0 then (p: (int, int)) => (p.1, n - 1 - p.0) else (p: (int, int)) => (n - 1 - p.1, p.0);
    forall a | a in Occupied(r)
      ensures a in Image(Occupied(g), f)
    {
      var src := if direction > 0 then (n - 1 - a.1, a.0) else (a.1, n - 1 - a.0);
      assert src in Occupied(g) && f(src) == a;
    }
    forall p | p in Occupied(g)
      ensures f(p) in Occupied(r)
    {
      assert r[f(p).0][f(p).1] == g[p.0][p.1];
    }
    assert Occupied(r) == Image(Occupied(g), f);
    ImageSize(Occupied(g), f);
  }

  /** `rotate`'s first loop: swaps m[x][y] and m[y][x] for every x < y. */
  method Transpose(m: array2<int>)
    requires m.Length0 == m.Length1
    modifies m
    ensures forall i, j :: 0 <= i < m.Length0 && 0 <= j < m.Length1 ==> m[i, j] == old(m[j, i])
  {
    var n := m.Length0;
    var y := 0;
    while y < n
      invariant 0 <= y <= n
      invariant forall i, j :: 0 <= i < n && 0 <= j < n ==>
        m[i, j] == if i < y && j < y then old(m[j, i]) else old(m[i, j])
    {
      var x := 0;
      while x < y
        invariant 0 <= x <= y
        invariant forall i, j :: 0 <= i < n && 0 <= j < n ==>
          m[i, j] == if (i < y && j < y) || (i == y && j < x) || (j == y && i < x)
                     then old(m[j, i]) else old(m[i, j])
      {
        m[x, y], m[y, x] := m[y, x], m[x, y];
        x := x + 1;
      }
      y := y + 1;
    }
  }

  /** `matrix.forEach(row => row.reverse())`: reverses every row in place. */
  method ReverseEachRow(m: array2<int>)
    modifies m
    ensures forall i, j :: 0 <= i < m.Length0 && 0 <= j < m.Length1 ==> m[i, j] == old(m[i, m.Length1 - 1 - j])
  {
    var w := m.Length1;
    var y := 0;
    while y < m.Length0
      invariant 0 <= y <= m.Length0
      invariant forall i, j :: 0 <= i < m.Length0 && 0 <= j < w ==>
        m[i, j] == if i < y then old(m[i, w - 1 - j]) else old(m[i, j])
    {
      var x := 0;
      while x < w / 2
        invariant 0 <= x <= w / 2
        invariant forall i, j :: 0 <= i < m.Length0 && 0 <= j < w ==>
          m[i, j] == if i < y || (i == y && (j < x || w - 1 - j < x)) then old(m[i, w - 1 - j]) else old(m[i, j])
      {
        m[y, x], m[y, w - 1 - x] := m[y, w - 1 - x], m[y, x];
        x := x + 1;
      }
      y := y + 1;
    }
  }

  /** `matrix.reverse()`: reverses the order of the rows, exchanging row contents in place. */
  method ReverseRowOrder(m: array2<int>)
    modifies m
    ensures forall i, j :: 0 <= i < m.Length0 && 0 <= j < m.Length1 ==> m[i, j] == old(m[m.Length0 - 1 - i, j])
  {
    var h := m.Length0;
    var y := 0;
    while y < h / 2
      invariant 0 <= y <= h / 2
      invariant forall i, j :: 0 <= i < h && 0 <= j < m.Length1 ==>
        m[i, j] == if i < y || h - 1 - i < y then old(m[h - 1 - i, j]) else old(m[i, j])
    {
      var x := 0;
      while x < m.Length1
        invariant 0 <= x <= m.Length1
        invariant forall i, j :: 0 <= i < h && 0 <= j < m.Length1 ==>
          m[i, j] == if i < y || h - 1 - i < y || ((i == y || i == h - 1 - y) && j < x)
                     then old(m[h - 1 - i, j]) else old(m[i, j])
      {
        m[y, x], m[h - 1 - y, x] := m[h - 1 - y, x], m[y, x];
        x := x + 1;
      }
      y := y + 1;
    }
  }

  /**
   * `rotate(matrix, direction)` on a square matrix, in place: clockwise when
   * direction > 0, counter-clockwise otherwise.
   */
  method Rotate(m: array2<int>, direction: int)
    requires m.Length0 == m.Length1
    modifies m
    ensures forall i, j :: 0 <= i < m.Length0 && 0 <= j < m.Length1 ==>
      m[i, j] == if direction > 0 then old(m[m.Length0 - 1 - j, i]) else old(m[j, m.Length0 - 1 - i])
    ensures Cells(m) == Turned(old(Cells(m)), direction)
  {
    var n := m.Length0;
    ghost var before := Cells(m);
    Transpose(m);
    ghost var transposed := Cells(m);
    if direction > 0 {
      ReverseEachRow(m);
      assert forall i, j :: 0 <= i < n && 0 <= j < n ==> m[i, j] == transposed[i][n - 1 - j];
    } else {
      ReverseRowOrder(m);
      assert forall i, j :: 0 <= i < n && 0 <= j < n ==> m[i, j] == transposed[n - 1 - i][j];
    }
    SameGrid(Cells(m), Turned(before, direction), n, n);
  }
}
