/** The 20 x 10 grid of cells, the collision predicate, committing a piece and clearing
    full rows. */
module Board {
  import opened Pieces

  const WIDTH := 10
  const HEIGHT := 20

  /** One row of cells: 0 is empty, 1..7 a colour id. */
  type Row = seq<int>
  /** Rows from the top (index 0) to the bottom (index HEIGHT - 1). */
  type Grid = seq<Row>

  predicate WellFormed(b: Grid) {
    |b| == HEIGHT && forall r :: 0 <= r < |b| ==> |b[r]| == WIDTH
  }

  function EmptyRow(): (row: Row)
    ensures |row| == WIDTH && forall c :: 0 <= c < |row| ==> row[c] == 0
  {
    seq(WIDTH, _ => 0)
  }

  /** n empty rows. */
  function EmptyRows(n: nat): (rows: Grid)
    ensures |rows| == n && forall r :: 0 <= r < n ==> rows[r] == EmptyRow()
  {
    seq(n, _ => EmptyRow())
  }

  function EmptyBoard(): Grid {
    EmptyRows(HEIGHT)
  }

  /** A cell at (col, row) is off limits: left of, right of or below the board, or an
      occupied cell on the board. Rows above the board (row < 0) hold nothing. */
  predicate Blocked(b: Grid, col: int, row: int)
    requires WellFormed(b)
  {
    col < 0 || col >= WIDTH || row >= HEIGHT || (row >= 0 && b[row][col] != 0)
  }

  /** Scan of the cells of one shape row, from column j on, with the shape's left edge at
      board column `left` and this row at board row `top`. */
  function CellsCollideFrom(b: Grid, cells: seq<int>, j: nat, left: int, top: int): bool
    requires WellFormed(b)
    decreases |cells| - j
  {
    if j >= |cells| then false
    else (cells[j] != 0 && Blocked(b, left + j, top)) || CellsCollideFrom(b, cells, j + 1, left, top)
  }

  /** Scan of the rows of a shape, from row i on, with its top-left corner at (left, top). */
  function RowsCollideFrom(b: Grid, shape: Matrix, i: nat, left: int, top: int): bool
    requires WellFormed(b)
    decreases |shape| - i
  {
    if i >= |shape| then false
    else CellsCollideFrom(b, shape[i], 0, left, top + i) || RowsCollideFrom(b, shape, i + 1, left, top)
  }

  /** The piece, moved by (dx, dy), would overlap a blocked cell. */
  function IsCollision(b: Grid, p: Piece, dx: int, dy: int): bool
    requires WellFormed(b)
  {
    RowsCollideFrom(b, p.shape, 0, p.x + dx, p.y + dy)
  }

  lemma {:induction false} CellsCollideFromIff(b: Grid, cells: seq<int>, j: nat, left: int, top: int)
    requires WellFormed(b)
    ensures CellsCollideFrom(b, cells, j, left, top) <==>
            exists jj :: j <= jj < |cells| && cells[jj] != 0 && Blocked(b, left + jj, top)
    decreases |cells| - j
  {
    if j < |cells| {
      CellsCollideFromIff(b, cells, j + 1, left, top);
      if cells[j] != 0 && Blocked(b, left + j, top) {
        assert j <= j < |cells| && cells[j] != 0 && Blocked(b, left + j, top);
      }
    }
  }

  lemma {:induction false} RowsCollideFromIff(b: Grid, shape: Matrix, i: nat, left: int, top: int)
    requires WellFormed(b)
    ensures RowsCollideFrom(b, shape, i, left, top) <==>
            exists ii, jj :: i <= ii < |shape| && 0 <= jj < |shape[ii]| && shape[ii][jj] != 0
                             && Blocked(b, left + jj, top + ii)
    decreases |shape| - i
  {
    if i < |shape| {
      RowsCollideFromIff(b, shape, i + 1, left, top);
      CellsCollideFromIff(b, shape[i], 0, left, top + i);
      if CellsCollideFrom(b, shape[i], 0, left, top + i) {
        var jj :| 0 <= jj < |shape[i]| && shape[i][jj] != 0 && Blocked(b, left + jj, top + i);
        assert i <= i < |shape| && 0 <= jj < |shape[i]| && shape[i][jj] != 0 && Blocked(b, left + jj, top + i);
      }
    }
  }

  /** The collision predicate holds exactly when some occupied shape cell, moved by
      (dx, dy), lands left or right of the board, below it, or on an occupied board cell. */
  lemma CollisionIff(b: Grid, p: Piece, dx: int, dy: int)
    requires WellFormed(b)
    ensures IsCollision(b, p, dx, dy) <==>
            exists i, j :: 0 <= i < |p.shape| && 0 <= j < |p.shape[i]| && p.shape[i][j] != 0
                           && Blocked(b, p.x + dx + j, p.y + dy + i)
  {
    RowsCollideFromIff(b, p.shape, 0, p.x + dx, p.y + dy);
  }

  /** Every occupied cell of the piece is in a board column and above the floor. */
  predicate InBounds(p: Piece) {
    forall i, j :: 0 <= i < |p.shape| && 0 <= j < |p.shape[i]| && p.shape[i][j] != 0 ==>
      0 <= p.x + j < WIDTH && p.y + i < HEIGHT
  }

  /** A pose that does not collide is within the board's columns and above its floor. */
  lemma FitsInBounds(b: Grid, p: Piece, dx: int, dy: int)
    requires WellFormed(b) && !IsCollision(b, p, dx, dy)
    ensures InBounds(Shift(p, dx, dy))
  {
    CollisionIff(b, p, dx, dy);
  }

  /** A piece in bounds with a block has its top row above the floor. */
  lemma InBoundsAboveFloor(p: Piece)
    requires InBounds(p) && HasBlock(p.shape)
    ensures p.y < HEIGHT
  {
    var i, j :| 0 <= i < |p.shape| && 0 <= j < |p.shape[i]| && p.shape[i][j] != 0;
  }

  /** On an empty board only the walls and the floor collide. */
  lemma EmptyBoardCollision(p: Piece, dx: int, dy: int)
    ensures IsCollision(EmptyBoard(), p, dx, dy) <==> !InBounds(Shift(p, dx, dy))
  {
    CollisionIff(EmptyBoard(), p, dx, dy);
  }

  /** The board after committing the piece: its colour in every cell it covers, every other
      cell as before; cells above the board are dropped. */
  function Stamp(b: Grid, p: Piece): (r: Grid)
    requires WellFormed(b)
    ensures WellFormed(r)
  {
    seq(HEIGHT, row requires 0 <= row < HEIGHT =>
      seq(WIDTH, col requires 0 <= col < WIDTH =>
        if Occupies(p, col, row) then p.color else b[row][col]))
  }

  /** A committed piece now collides where it stands, provided one of its cells is on the board. */
  lemma StampedPoseCollides(b: Grid, p: Piece, i: int, j: int)
    requires WellFormed(b) && InBounds(p) && p.color != 0
    requires 0 <= i < |p.shape| && 0 <= j < |p.shape[i]| && p.shape[i][j] != 0 && p.y + i >= 0
    ensures IsCollision(Stamp(b, p), p, 0, 0)
  {
    var s := Stamp(b, p);
    assert Occupies(p, p.x + j, p.y + i);
    assert Blocked(s, p.x + 0 + j, p.y + 0 + i);
    CollisionIff(s, p, 0, 0);
  }

  predicate IsFull(row: Row) {
    forall c :: 0 <= c < |row| ==> row[c] != 0
  }

  predicate NoFullRow(b: Grid) {
    forall r :: 0 <= r < |b| ==> !IsFull(b[r])
  }

  /** The rows that are not full, in their order on the board. */
  function KeepRows(b: Grid): (r: Grid)
    ensures |r| <= |b|
  {
    if b == [] then []
    else KeepRows(b[..|b| - 1]) + (if IsFull(b[|b| - 1]) then [] else [b[|b| - 1]])
  }

  /** Number of full rows. */
  function FullRowCount(b: Grid): (n: nat)
    ensures n <= |b|
  {
    if b == [] then 0
    else FullRowCount(b[..|b| - 1]) + (if IsFull(b[|b| - 1]) then 1 else 0)
  }

  /** The board after removing every full row and inserting as many empty rows on top. */
  function Cleared(b: Grid): (r: Grid)
    ensures |r| == |b|
  {
    KeepRowsExact(b);
    EmptyRows(FullRowCount(b)) + KeepRows(b)
  }

  /** The kept rows are exactly the rows that are not full: each one is a non-full row of
      the board, every non-full row is among them, and the full ones make up the difference. */
  lemma {:induction false} KeepRowsExact(b: Grid)
    ensures |KeepRows(b)| + FullRowCount(b) == |b|
    ensures forall t :: 0 <= t < |KeepRows(b)| ==> KeepRows(b)[t] in b && !IsFull(KeepRows(b)[t])
    ensures forall r :: 0 <= r < |b| && !IsFull(b[r]) ==> b[r] in KeepRows(b)
  {
    if b != [] {
      var front := b[..|b| - 1];
      KeepRowsExact(front);
      forall r | 0 <= r < |b| && !IsFull(b[r]) ensures b[r] in KeepRows(b) {
        if r < |b| - 1 {
          assert b[r] == front[r];
        }
      }
    }
  }

  /** Removing full rows works row by row: the kept rows of two stacked boards are the kept
      rows of the upper one above those of the lower one, so surviving rows keep their order. */
  lemma {:induction false} KeepRowsAppend(a: Grid, b: Grid)
    ensures KeepRows(a + b) == KeepRows(a) + KeepRows(b)
    ensures FullRowCount(a + b) == FullRowCount(a) + FullRowCount(b)
    decreases |b|
  {
    if b == [] {
      assert a + b == a;
    } else {
      var front := b[..|b| - 1];
      KeepRowsAppend(a, front);
      assert (a + b)[..|a + b| - 1] == a + front;
    }
  }

  /** With no full row, clearing changes nothing. */
  lemma ClearNothingFull(b: Grid)
    requires NoFullRow(b)
    ensures FullRowCount(b) == 0 && Cleared(b) == b
  {
    KeepNonFullSpan(b, 0, |b|);
    assert b[..0] == [] && b[..|b|] == b && b[0..|b|] == b;
    KeepRowsExact(b);
  }

  /** Prefix extension over rows that are not full keeps all of them. */
  lemma {:induction false} KeepNonFullSpan(b: Grid, m: nat, c: nat)
    requires m <= c <= |b|
    requires forall j :: m <= j < c ==> !IsFull(b[j])
    ensures KeepRows(b[..c]) == KeepRows(b[..m]) + b[m..c]
    decreases c - m
  {
    if c > m {
      KeepNonFullSpan(b, m, c - 1);
      assert b[..c][..c - 1] == b[..c - 1];
      assert b[m..c] == b[m..c - 1] + [b[c - 1]];
    }
  }

  /** The full rows of a board lie within rows lo..hi - 1: there are at most hi - lo of them. */
  lemma FullRowsInWindow(b: Grid, lo: int, hi: int)
    requires lo <= hi
    requires forall r :: 0 <= r < |b| && IsFull(b[r]) ==> lo <= r < hi
    ensures FullRowCount(b) <= hi - lo
  {
    FullRowsInWindowPrefix(b, lo, hi, |b|);
    assert b[..|b|] == b;
  }

  lemma {:induction false} FullRowsInWindowPrefix(b: Grid, lo: int, hi: int, m: nat)
    requires lo <= hi && m <= |b|
    requires forall r :: 0 <= r < |b| && IsFull(b[r]) ==> lo <= r < hi
    ensures FullRowCount(b[..m]) <= (if m <= lo then 0 else (if m < hi then m else hi) - lo)
  {
    if m > 0 {
      FullRowsInWindowPrefix(b, lo, hi, m - 1);
      assert b[..m][..m - 1] == b[..m - 1];
    }
  }

  /** Committing a piece of side at most 4 onto a board without full rows fills at most four
      rows, all of them rows the piece covers. */
  lemma StampFillsAtMostFour(b: Grid, p: Piece)
    requires WellFormed(b) && NoFullRow(b) && |p.shape| <= 4
    ensures FullRowCount(Stamp(b, p)) <= 4
  {
    var s := Stamp(b, p);
    forall r | 0 <= r < |s| && IsFull(s[r]) ensures p.y <= r < p.y + |p.shape| {
      assert !IsFull(b[r]);
      var c :| 0 <= c < |b[r]| && b[r][c] == 0;
      assert s[r][c] != 0;
      assert Occupies(p, c, r);
    }
    FullRowsInWindow(s, p.y, p.y + |p.shape|);
  }

  /** Clearing keeps the board's shape and leaves no full row. */
  lemma ClearedShape(b: Grid)
    requires WellFormed(b)
    ensures WellFormed(Cleared(b)) && NoFullRow(Cleared(b))
  {
    KeepRowsExact(b);
    var c := Cleared(b);
    var n := FullRowCount(b);
    forall r | 0 <= r < |c| ensures |c[r]| == WIDTH && !IsFull(c[r]) {
      if r < n {
        assert c[r] == EmptyRow();
        assert c[r][0] == 0;
      } else {
        assert c[r] == KeepRows(b)[r - n];
        var t :| 0 <= t < |b| && b[t] == c[r];
      }
    }
  }

  /** Clearing twice is clearing once. */
  lemma ClearedIdempotent(b: Grid)
    requires WellFormed(b)
    ensures Cleared(Cleared(b)) == Cleared(b)
  {
    ClearedShape(b);
    ClearNothingFull(Cleared(b));
  }

  /** Rows of the empty board are not full. */
  lemma EmptyBoardShape()
    ensures WellFormed(EmptyBoard()) && NoFullRow(EmptyBoard())
  {
    forall r | 0 <= r < HEIGHT ensures !IsFull(EmptyBoard()[r]) {
      assert EmptyBoard()[r][0] == 0;
    }
  }

  /** The list holds the indices of exactly the full rows, from the bottom-most to the top-most. */
  predicate ListsFullRows(b: Grid, completed: seq<int>) {
    && (forall t :: 0 <= t < |completed| ==> 0 <= completed[t] < |b| && IsFull(b[completed[t]]))
    && (forall s, t :: 0 <= s < t < |completed| ==> completed[s] > completed[t])
    && (forall r :: 0 <= r < |b| && IsFull(b[r]) ==> r in completed)
  }

  /** The first loop of clearLines: the indices of the full rows, scanned from the bottom
      row upward. */
  method FindCompletedLines(b: Grid) returns (completed: seq<int>)
    requires WellFormed(b)
    ensures ListsFullRows(b, completed)
  {
    completed := [];
    var y := HEIGHT - 1;
    while y >= 0
      invariant -1 <= y < HEIGHT
      invariant forall t :: 0 <= t < |completed| ==> y < completed[t] < |b| && IsFull(b[completed[t]])
      invariant forall s, t :: 0 <= s < t < |completed| ==> completed[s] > completed[t]
      invariant forall r :: y < r < |b| && IsFull(b[r]) ==> r in completed
    {
      if IsFull(b[y]) {
        completed := completed + [y];
      }
      y := y - 1;
    }
  }

  /** While the listed rows are removed from the top-most (the last entry) down, entries
      i + 1 and later are done; the next row to look at is the one below the last removed. */
  function DoneUpTo(completed: seq<int>, i: int): int
    requires -1 <= i < |completed|
  {
    if i == |completed| - 1 then 0 else completed[i + 1] + 1
  }

  /** The rows between the last removed full row and the next one to remove (or the bottom
      of the board once all are removed) are not full. */
  lemma GapNotFull(b: Grid, completed: seq<int>, i: int)
    requires ListsFullRows(b, completed) && -1 <= i < |completed|
    ensures var hi := if i >= 0 then completed[i] else |b|;
            0 <= DoneUpTo(completed, i) <= hi <= |b|
            && forall j :: DoneUpTo(completed, i) <= j < hi ==> !IsFull(b[j])
  {
  }

  /** The board while the removal loop runs, once k rows are removed and the rows above
      row m have all been looked at: k empty rows on top, the kept rows of the rows above m,
      and the original rows from m on. */
  function RemovalState(b0: Grid, k: nat, m: nat): Grid
    requires m <= |b0|
  {
    EmptyRows(k) + KeepRows(b0[..m]) + b0[m..]
  }

  /** Before any removal the board is the original one. */
  lemma RemovalStart(b0: Grid)
    ensures RemovalState(b0, 0, 0) == b0 && |KeepRows(b0[..0])| == 0
  {
    assert b0[..0] == [];
  }

  /** Splicing row r out of a board whose first m rows were replaced by `front` only touches
      the original rows from m on. */
  lemma SpliceAfterFront(front: Grid, b0: Grid, m: nat, r: nat)
    requires |front| == m <= r < |b0|
    ensures var board := front + b0[m..];
            board[..r] + board[r + 1..] == front + b0[m..r] + b0[r + 1..]
  {
    var board := front + b0[m..];
    assert board[..r] == front + b0[m..r];
    assert board[r + 1..] == b0[r + 1..];
  }

  /** The kept rows up to and including a full row r, when no row from m to r - 1 is full:
      those of the rows above m, followed by rows m to r - 1. */
  lemma KeepThroughFullRow(b0: Grid, m: nat, r: nat)
    requires m <= r < |b0| && IsFull(b0[r])
    requires forall j :: m <= j < r ==> !IsFull(b0[j])
    ensures KeepRows(b0[..r + 1]) == KeepRows(b0[..m]) + b0[m..r]
  {
    KeepNonFullSpan(b0, m, r);
    assert b0[..r + 1][..r] == b0[..r];
  }

  /** One step of the removal, the source's splice of row completed[i] followed by an empty
      row put on top, moves the removal state from entry i to entry i - 1: the row removed
      is still at its original index, and one more row is removed. */
  lemma RemoveRowStep(b0: Grid, completed: seq<int>, i: int, k: nat, m: nat)
    requires ListsFullRows(b0, completed) && 0 <= i < |completed|
    requires m == DoneUpTo(completed, i) && m <= |b0| && |KeepRows(b0[..m])| + k == m
    ensures var r := completed[i];
            var board := RemovalState(b0, k, m);
            m <= r < |b0| && |board| == |b0| && r + 1 == DoneUpTo(completed, i - 1)
            && |KeepRows(b0[..r + 1])| + (k + 1) == r + 1
            && [EmptyRow()] + (board[..r] + board[r + 1..]) == RemovalState(b0, k + 1, r + 1)
  {
    var r := completed[i];
    GapNotFull(b0, completed, i);
    KeepThroughFullRow(b0, m, r);
    var front := EmptyRows(k) + KeepRows(b0[..m]);
    SpliceAfterFront(front, b0, m, r);
    assert [EmptyRow()] + EmptyRows(k) == EmptyRows(k + 1);
  }

  /** Once every listed row is removed, the board is the cleared board and as many rows
      were removed as there are full rows. */
  lemma RemovalDone(b0: Grid, completed: seq<int>, k: nat, m: nat)
    requires ListsFullRows(b0, completed)
    requires m == DoneUpTo(completed, -1) && m <= |b0| && |KeepRows(b0[..m])| + k == m
    ensures RemovalState(b0, k, m) == Cleared(b0)
    ensures k == FullRowCount(b0)
  {
    GapNotFull(b0, completed, -1);
    NothingFullLeft(b0, m, k);
  }

  /** One pass of the timer's removal loop: splice row `row` out and put an empty row on top.
      The rows above it move one down, the rows below it stay. */
  function SpliceRow(b: Grid, row: int): (r: Grid)
    requires 0 <= row < |b|
    ensures |r| == |b| && r[0] == EmptyRow() && r[1..row + 1] == b[..row] && r[row + 1..] == b[row + 1..]
  {
    [EmptyRow()] + (b[..row] + b[row + 1..])
  }

  /** The removal loop of the source's line-clear timer, as written, on whatever list of
      indices the timer captured: entries i, i - 1, ..., 0 are spliced out in turn. */
  function TimerRemoval(b: Grid, completed: seq<int>, i: int): (r: Grid)
    requires -1 <= i < |completed|
    requires forall t :: 0 <= t < |completed| ==> 0 <= completed[t] < |b|
    ensures |r| == |b|
    decreases i + 1
  {
    if i < 0 then b else TimerRemoval(SpliceRow(b, completed[i]), completed, i - 1)
  }

  /** A board whose bottom row is full and whose row above it holds a single block. */
  function StaleExample(): (b: Grid)
    ensures WellFormed(b) && IsFull(b[HEIGHT - 1]) && !IsFull(b[HEIGHT - 2])
  {
    var partial := EmptyRow()[0 := 1];
    assert partial[1] == 0;
    EmptyRows(HEIGHT - 2) + [partial, seq(WIDTH, _ => 1)]
  }

  /** Only its bottom row is full, and clearing it lets the single block drop one row. */
  lemma StaleExampleCleared()
    ensures ListsFullRows(StaleExample(), [HEIGHT - 1])
    ensures Cleared(StaleExample()) == [EmptyRow()] + StaleExample()[..HEIGHT - 1]
  {
    var b := StaleExample();
    var top := b[..HEIGHT - 2];
    var tail := b[HEIGHT - 2..];
    assert top == EmptyRows(HEIGHT - 2);
    forall r | 0 <= r < |top| ensures !IsFull(top[r]) {
      assert top[r][0] == 0;
    }
    forall r | 0 <= r < HEIGHT - 1 ensures !IsFull(b[r]) {
      if r < |top| {
        assert b[r] == top[r];
      }
    }
    ClearNothingFull(top);
    assert b == top + tail;
    KeepRowsAppend(top, tail);
    assert tail[..1] == [b[HEIGHT - 2]] && [b[HEIGHT - 2]][..0] == [];
    assert KeepRows(tail) == [b[HEIGHT - 2]];
    assert FullRowCount(tail) == 1;
    assert b[..HEIGHT - 1] == top + [b[HEIGHT - 2]];
  }

  /** Two timers with the same list. A piece placed while the first timer is pending finds the
      same full bottom row again. The first timer removes it; the second then splices out the
      row that has dropped into its place, which was not full, and the board no longer is the
      cleared board. */
  lemma StaleTimerRemovesKeptRow()
    ensures var b := StaleExample();
            var once := TimerRemoval(b, [HEIGHT - 1], 0);
            ListsFullRows(b, [HEIGHT - 1]) && once == Cleared(b)
            && !IsFull(once[HEIGHT - 1]) && TimerRemoval(once, [HEIGHT - 1], 0) != Cleared(b)
  {
    var b := StaleExample();
    StaleExampleCleared();
    var once := TimerRemoval(b, [HEIGHT - 1], 0);
    assert once == SpliceRow(b, HEIGHT - 1);
    assert once[1..] == b[..HEIGHT - 1];
    assert once == Cleared(b);
    assert once[HEIGHT - 1] == b[HEIGHT - 2];
    var twice := TimerRemoval(once, [HEIGHT - 1], 0);
    assert twice == SpliceRow(once, HEIGHT - 1);
    assert twice[HEIGHT - 1] != once[HEIGHT - 1] by {
      assert twice[HEIGHT - 1] == once[HEIGHT - 2] == b[HEIGHT - 3];
      assert b[HEIGHT - 3][0] == 0;
      assert b[HEIGHT - 2][0] == 1;
    }
  }

  /** When no row from m on is full, every one of them is kept, and the n rows counted as
      removed above m are all the full rows. */
  lemma NothingFullLeft(b0: Grid, m: nat, n: nat)
    requires m <= |b0| && |KeepRows(b0[..m])| + n == m
    requires forall j :: m <= j < |b0| ==> !IsFull(b0[j])
    ensures KeepRows(b0[..m]) + b0[m..] == KeepRows(b0)
    ensures n == FullRowCount(b0)
  {
    KeepNonFullSpan(b0, m, |b0|);
    assert b0[..|b0|] == b0;
    KeepRowsExact(b0);
  }

  /** The commit loop has written the cells of shape rows 0..y - 1, and of row y up to
      column x - 1; every other cell is as in b0. */
  predicate PartlyStamped(b: Grid, b0: Grid, p: Piece, y: int, x: int)
    requires WellFormed(b) && WellFormed(b0)
  {
    forall r, c :: 0 <= r < HEIGHT && 0 <= c < WIDTH ==>
      b[r][c] == if Occupies(p, c, r) && (r - p.y < y || (r - p.y == y && c - p.x < x)) then p.color
                 else b0[r][c]
  }

  /** One iteration of the inner commit loop: write cell (y, x) of the shape when it is
      occupied and on or below the top row. */
  function StampCell(b: Grid, p: Piece, y: int, x: int): Grid
    requires WellFormed(b) && InBounds(p) && 0 <= y < |p.shape| && 0 <= x < |p.shape[y]|
  {
    if p.shape[y][x] != 0 && p.y + y >= 0 then b[p.y + y := b[p.y + y][p.x + x := p.color]] else b
  }

  lemma StampCellStep(b: Grid, b0: Grid, p: Piece, y: int, x: int)
    requires WellFormed(b) && WellFormed(b0) && InBounds(p) && 0 <= y < |p.shape| && 0 <= x < |p.shape[y]|
    requires PartlyStamped(b, b0, p, y, x)
    ensures WellFormed(StampCell(b, p, y, x)) && PartlyStamped(StampCell(b, p, y, x), b0, p, y, x + 1)
  {
  }

  lemma StampRowDone(b: Grid, b0: Grid, p: Piece, y: int)
    requires WellFormed(b) && WellFormed(b0) && 0 <= y < |p.shape|
    requires PartlyStamped(b, b0, p, y, |p.shape[y]|)
    ensures PartlyStamped(b, b0, p, y + 1, 0)
  {
  }

  lemma StampDone(b: Grid, b0: Grid, p: Piece)
    requires WellFormed(b) && WellFormed(b0)
    requires PartlyStamped(b, b0, p, |p.shape|, 0)
    ensures b == Stamp(b0, p)
  {
    var s := Stamp(b0, p);
    forall r | 0 <= r < HEIGHT ensures b[r] == s[r] {
      assert forall c :: 0 <= c < WIDTH ==> b[r][c] == s[r][c];
    }
  }
}
