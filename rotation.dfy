/** Clockwise rotation of a shape matrix and the wall-kick search. */
module Rotation {
  import opened Pieces
  import opened Board

  /** The source's rotateMatrix: cell (i, j) of the result is cell (n - 1 - j, i) of the input. */
  function RotateMatrix(m: Matrix): (r: Matrix)
    requires IsSquare(m)
    ensures IsSquare(r) && |r| == |m|
  {
    var n := |m|;
    seq(n, i requires 0 <= i < n => seq(n, j requires 0 <= j < n => m[n - 1 - j][i]))
  }

  /** Rotation moves the cell at row i, column j to row j, column n - 1 - i. */
  lemma RotateMovesCell(m: Matrix, i: int, j: int)
    requires IsSquare(m) && 0 <= i < |m| && 0 <= j < |m|
    ensures RotateMatrix(m)[j][|m| - 1 - i] == m[i][j]
  {
  }

  /** Two rotations turn the matrix half way round. */
  lemma RotateTwice(m: Matrix)
    requires IsSquare(m)
    ensures var h := RotateMatrix(RotateMatrix(m));
            |h| == |m| && forall i, j :: 0 <= i < |m| && 0 <= j < |m| ==> h[i][j] == m[|m| - 1 - i][|m| - 1 - j]
  {
  }

  /** Rotation is cyclic of order 4: four rotations give back the original matrix. */
  lemma RotateFourTimes(m: Matrix)
    requires IsSquare(m)
    ensures RotateMatrix(RotateMatrix(RotateMatrix(RotateMatrix(m)))) == m
  {
    var h := RotateMatrix(RotateMatrix(m));
    RotateTwice(m);
    RotateTwice(h);
    var f := RotateMatrix(RotateMatrix(h));
    assert |f| == |m|;
    forall i | 0 <= i < |m| ensures f[i] == m[i] {
      assert |f[i]| == |m[i]|;
      forall j | 0 <= j < |m| ensures f[i][j] == m[i][j] {
        assert f[i][j] == h[|m| - 1 - i][|m| - 1 - j];
      }
    }
  }

  /** A rotated piece is still well formed: same side, same colour, still a block. */
  lemma RotatePreservesWellFormed(p: Piece)
    requires WellFormedPiece(p)
    ensures WellFormedPiece(p.(shape := RotateMatrix(p.shape)))
  {
    var i, j :| 0 <= i < |p.shape| && 0 <= j < |p.shape[i]| && p.shape[i][j] != 0;
    RotateMovesCell(p.shape, i, j);
    var r := RotateMatrix(p.shape);
    assert r[j][|p.shape| - 1 - i] != 0;
  }

  /** The wall kicks, in the order they are tried: one column left, one right, one row up,
      two columns left, two right. */
  const KICKS: seq<(int, int)> := [(-1, 0), (1, 0), (0, -1), (-2, 0), (2, 0)]

  /** The offsets a rotation tries: the rotated piece where it stands, then the kicks. */
  const ROTATION_OFFSETS: seq<(int, int)> := [(0, 0)] + KICKS

  /** Index of the first offset at which the piece does not collide, if any: every earlier
      offset collides, and None means every offset collides. */
  function FirstFit(b: Grid, p: Piece, offsets: seq<(int, int)>): (r: Option)
    requires WellFormed(b)
    ensures r.Some? ==> r.index < |offsets| && !IsCollision(b, p, offsets[r.index].0, offsets[r.index].1)
    ensures r.Some? ==> forall t :: 0 <= t < r.index ==> IsCollision(b, p, offsets[t].0, offsets[t].1)
    ensures r.None? ==> forall t :: 0 <= t < |offsets| ==> IsCollision(b, p, offsets[t].0, offsets[t].1)
  {
    if offsets == [] then None
    else if !IsCollision(b, p, offsets[0].0, offsets[0].1) then Some(0)
    else match FirstFit(b, p, offsets[1..])
      case None => None
      case Some(t) => Some(t + 1)
  }

  datatype Option = None | Some(index: nat)
}
