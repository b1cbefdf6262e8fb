/** Shape matrices, the falling piece, and the catalog of the seven tetrominoes. */
module Pieces {

  /** A shape matrix: row-major cells, 0 is empty and any other value is occupied. */
  type Matrix = seq<seq<int>>

  predicate IsSquare(m: Matrix) {
    forall i :: 0 <= i < |m| ==> |m[i]| == |m|
  }

  /** Some cell of the matrix is occupied. */
  predicate HasBlock(m: Matrix) {
    exists i, j :: 0 <= i < |m| && 0 <= j < |m[i]| && m[i][j] != 0
  }

  /** A piece: its own copy of a shape, its colour id, and the board position of the
      shape's top-left corner (column x, row y). */
  datatype Piece = Piece(shape: Matrix, color: int, x: int, y: int)

  /** A catalog entry. */
  datatype Template = Template(shape: Matrix, color: int)

  /** The piece as it is in the session: a square shape of side 2 to 4 with at least one
      occupied cell and a colour id in 1..7. */
  predicate WellFormedPiece(p: Piece) {
    IsSquare(p.shape) && 2 <= |p.shape| <= 4 && HasBlock(p.shape) && 1 <= p.color <= 7
  }

  /** The piece covers board cell (col, row). */
  predicate Occupies(p: Piece, col: int, row: int) {
    0 <= row - p.y < |p.shape| && 0 <= col - p.x < |p.shape[row - p.y]|
    && p.shape[row - p.y][col - p.x] != 0
  }

  /** The piece moved by dx columns and dy rows. */
  function Shift(p: Piece, dx: int, dy: int): Piece {
    p.(x := p.x + dx, y := p.y + dy)
  }

  /** Number of occupied cells of a row, from column j on. */
  function RowBlocks(row: seq<int>, j: nat): nat
    decreases |row| - j
  {
    if j >= |row| then 0 else (if row[j] != 0 then 1 else 0) + RowBlocks(row, j + 1)
  }

  /** Number of occupied cells of a matrix, from row i on. */
  function Blocks(m: Matrix, i: nat): nat
    decreases |m| - i
  {
    if i >= |m| then 0 else RowBlocks(m[i], 0) + Blocks(m, i + 1)
  }

  /** Index of a catalog entry: stands for the source's uniform random draw. */
  type TemplateIndex = k: int | 0 <= k < 7

  /** The catalog, in the order I, O, T, S, Z, J, L; each occupied cell holds the colour id. */
  const TETROMINOES: seq<Template> := [
    Template([[0, 0, 0, 0],
              [1, 1, 1, 1],
              [0, 0, 0, 0],
              [0, 0, 0, 0]], 1),
    Template([[2, 2],
              [2, 2]], 2),
    Template([[0, 3, 0],
              [3, 3, 3],
              [0, 0, 0]], 3),
    Template([[0, 4, 4],
              [4, 4, 0],
              [0, 0, 0]], 4),
    Template([[5, 5, 0],
              [0, 5, 5],
              [0, 0, 0]], 5),
    Template([[6, 0, 0],
              [6, 6, 6],
              [0, 0, 0]], 6),
    Template([[0, 0, 7],
              [7, 7, 7],
              [0, 0, 0]], 7)
  ]

  /** A fresh piece copied from catalog entry k, at the origin. Every catalog piece is well
      formed, four cells large, its side is 4 for I, 2 for O and 3 otherwise, its colour is
      k + 1, and each occupied cell holds that colour. */
  function CreatePiece(k: TemplateIndex): (p: Piece)
    ensures WellFormedPiece(p) && p.x == 0 && p.y == 0
    ensures p.color == k + 1
    ensures |p.shape| == (if k == 0 then 4 else if k == 1 then 2 else 3)
    ensures Blocks(p.shape, 0) == 4
    ensures forall i, j :: 0 <= i < |p.shape| && 0 <= j < |p.shape[i]| && p.shape[i][j] != 0 ==>
              p.shape[i][j] == p.color
  {
    var t := TETROMINOES[k];
    assert t.shape[1][1] != 0;
    Piece(t.shape, t.color, 0, 0)
  }
}
