/**
 * The piece catalog: `createPiece` (tetris.js:62-106) and the spawn string
 * of `playerReset` (tetris.js:171).
 */
module Pieces {
  import opened Wrappers
  import opened Grid

  /** The string a spawn index selects from (`'ILJOTSZ'`). */
  const SpawnOrder := "ILJOTSZ"

  /**
   * The order of the piece ids: the cells of kind `IdOrder[k]` hold `k + 1`
   * (T=1, O=2, L=3, J=4, I=5, S=6, Z=7), the index into the colour table.
   */
  const IdOrder := "TOLJISZ"

  /** True when every non-zero cell of `g` holds the id of `kind`. */
  predicate CellsAreId(g: Matrix, kind: char)
  {
    forall i, j :: 0 <= i < |g| && 0 <= j < |g[i]| && g[i][j] != 0 ==>
      1 <= g[i][j] <= |IdOrder| && IdOrder[g[i][j] - 1] == kind
  }

  /** What every catalog shape is: an n-by-n square, n in 2..4, with four cells of its kind's id. */
  predicate PieceShape(g: Matrix, kind: char)
  {
    IsSquare(g) && 2 <= |g| <= 4 && |Occupied(g)| == 4 && CellsAreId(g, kind)
  }

  const TPiece: Matrix := [
      [0, 0, 0],
      [1, 1, 1],
      [0, 1, 0]
  ]

  const OPiece: Matrix := [
      [2, 2],
      [2, 2]
  ]

  const LPiece: Matrix := [
      [0, 3, 0],
      [0, 3, 0],
      [0, 3, 3]
  ]

  const JPiece: Matrix := [
      [0, 4, 0],
      [0, 4, 0],
      [4, 4, 0]
  ]

  const IPiece: Matrix := [
      [0, 5, 0, 0],
      [0, 5, 0, 0],
      [0, 5, 0, 0],
      [0, 5, 0, 0]
  ]

  const SPiece: Matrix := [
      [0, 6, 6],
      [6, 6, 0],
      [0, 0, 0]
  ]

  const ZPiece: Matrix := [
      [7, 7, 0],
      [0, 7, 7],
      [0, 0, 0]
  ]

  lemma TPieceShape()
    ensures PieceShape(TPiece, 'T')
  {
    assert Occupied(TPiece) == {(1, 0), (1, 1), (1, 2), (2, 1)};
  }

  lemma OPieceShape()
    ensures PieceShape(OPiece, 'O')
  {
    assert Occupied(OPiece) == {(0, 0), (0, 1), (1, 0), (1, 1)};
  }

  lemma LPieceShape()
    ensures PieceShape(LPiece, 'L')
  {
    assert Occupied(LPiece) == {(0, 1), (1, 1), (2, 1), (2, 2)};
  }

  lemma JPieceShape()
    ensures PieceShape(JPiece, 'J')
  {
    assert Occupied(JPiece) == {(0, 1), (1, 1), (2, 0), (2, 1)};
  }

  lemma IPieceShape()
    ensures PieceShape(IPiece, 'I')
  {
    assert Occupied(IPiece) == {(0, 1), (1, 1), (2, 1), (3, 1)};
  }

  lemma SPieceShape()
    ensures PieceShape(SPiece, 'S')
  {
    assert Occupied(SPiece) == {(0, 1), (0, 2), (1, 0), (1, 1)};
  }

  lemma ZPieceShape()
    ensures PieceShape(ZPiece, 'Z')
  {
    assert Occupied(ZPiece) == {(0, 0), (0, 1), (1, 1), (1, 2)};
  }

  /**
   * `createPiece(type)`: the literal matrix of each of the seven kinds and
   * `undefined` (None) for any other character.
   */
  function CreatePiece(kind: char): (r: Option<Matrix>)
    ensures r.Some? <==> kind in IdOrder
    ensures r.Some? ==> PieceShape(r.value, kind)
  {
    if kind == 'T' then TPieceShape(); Some(TPiece)
    else if kind == 'O' then OPieceShape(); Some(OPiece)
    else if kind == 'L' then LPieceShape(); Some(LPiece)
    else if kind == 'J' then JPieceShape(); Some(JPiece)
    else if kind == 'I' then IPieceShape(); Some(IPiece)
    else if kind == 'S' then SPieceShape(); Some(SPiece)
    else if kind == 'Z' then ZPieceShape(); Some(ZPiece)
    else None
  }

  /** The shape the spawn index `pick` (0..6) selects. */
  function SpawnShape(pick: nat): (g: Matrix)
    requires pick < |SpawnOrder|
    ensures PieceShape(g, SpawnOrder[pick])
  {
    CreatePiece(SpawnOrder[pick]).value
  }

  /** The spawn string lists each of the seven kinds exactly once. */
  lemma SpawnOrderCoversCatalog()
    ensures |SpawnOrder| == |IdOrder| == 7
    ensures forall k :: k in IdOrder <==> k in SpawnOrder
    ensures forall i, j :: 0 <= i < j < |SpawnOrder| ==> SpawnOrder[i] != SpawnOrder[j]
  {
  }

  /** Shapes of different kinds never share an id, so a cell's value names its kind. */
  lemma IdsDistinct(a: char, b: char, i: int, j: int, k: int, l: int)
    requires a in IdOrder && b in IdOrder && a != b
    requires var pa := CreatePiece(a).value;
      0 <= i < |pa| && 0 <= j < |pa[i]| && pa[i][j] != 0
    requires var pb := CreatePiece(b).value;
      0 <= k < |pb| && 0 <= l < |pb[k]| && pb[k][l] != 0
    ensures CreatePiece(a).value[i][j] != CreatePiece(b).value[k][l]
  {
  }
}
