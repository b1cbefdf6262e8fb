/** The game object: the fields the source's Tetris class updates in place, and its
    game-logic methods, each proved to perform the matching transition of module Engine. */
module Game {
  import opened Pieces
  import opened Board
  import opened Rotation
  import opened Scoring
  import opened Engine

  class Tetris {
    var board: Grid
    var current: Piece
    var next: Piece
    var score: nat
    var lines: nat
    var level: int
    var dropInterval: int
    var running: bool
    var paused: bool

    /** The fields as one session value. */
    ghost function State(): Session
      reads this
    {
      Session(board, current, next, Counters(), running, paused)
    }

    ghost predicate Valid()
      reads this
    {
      Invariant(State())
    }

    /** The source's constructor; k0, k1 and k2 stand for its three random draws. The first
        spawn finds no look-ahead piece and creates it from k0 before promoting it. */
    constructor (k0: TemplateIndex, k1: TemplateIndex, k2: TemplateIndex)
      ensures Valid() && State() == Initial(k0, k1, k2)
    {
      board := [];
      current := CreatePiece(k0);
      next := CreatePiece(k0);
      score, lines, level, dropInterval := 0, 0, 1, 1000;
      running, paused := false, false;
      new;
      InitBoard();
      EmptyBoardShape();
      GenerateNewPiece(k1);
      GenerateNewPiece(k2);
      RestartIsInitial(State(), k0, k1, k2);
    }

    /** initBoard: HEIGHT rows of WIDTH empty cells, built cell by cell. */
    method InitBoard()
      modifies this`board
      ensures board == EmptyBoard()
    {
      board := [];
      var y := 0;
      while y < HEIGHT
        invariant 0 <= y <= HEIGHT
        invariant board == EmptyRows(y)
      {
        board := board + [[]];
        var x := 0;
        while x < WIDTH
          invariant 0 <= x <= WIDTH
          invariant |board| == y + 1 && board[..y] == EmptyRows(y)
          invariant board[y] == seq(x, _ => 0)
        {
          board := board[y := board[y] + [0]];
          x := x + 1;
        }
        assert board[y] == EmptyRow();
        assert board == EmptyRows(y) + [EmptyRow()];
        y := y + 1;
      }
    }

    /** generateNewPiece, with k standing for the random draw of the new look-ahead piece. */
    method GenerateNewPiece(k: TemplateIndex)
      requires WellFormed(board) && WellFormedPiece(next)
      modifies this`current, this`next, this`running
      ensures State() == Spawn(old(State()), k)
    {
      current := next;
      current := current.(x := WIDTH / 2 - |current.shape[0]| / 2, y := 0);
      next := CreatePiece(k);
      if IsCollision(board, current, 0, 0) {
        GameOver();
      }
    }

    /** movePiece: reports whether the move was made. */
    method MovePiece(dx: int, dy: int) returns (moved: bool)
      requires WellFormed(board)
      modifies this`current
      ensures moved <==> !IsCollision(board, old(current), dx, dy)
      ensures State() == Moved(old(State()), dx, dy)
    {
      if !IsCollision(board, current, dx, dy) {
        current := current.(x := current.x + dx, y := current.y + dy);
        return true;
      }
      return false;
    }

    /** rotatePiece: reports whether the rotation was made. */
    method RotatePiece() returns (rotated: bool)
      requires WellFormed(board) && IsSquare(current.shape)
      modifies this`current
      ensures rotated <==>
                FirstFit(board, old(current).(shape := RotateMatrix(old(current).shape)), ROTATION_OFFSETS).Some?
      ensures State() == Rotated(old(State()))
    {
      var rotatedShape := RotateMatrix(current.shape);
      var originalShape := current.shape;
      current := current.(shape := rotatedShape);
      ghost var turned := current;
      assert ROTATION_OFFSETS[1..] == KICKS;

      if IsCollision(board, current, 0, 0) {
        var kicked := false;
        var i := 0;
        while i < |KICKS|
          invariant 0 <= i <= |KICKS| && !kicked && current == turned
          invariant forall u :: 0 <= u < i ==> IsCollision(board, turned, KICKS[u].0, KICKS[u].1)
        {
          var (dx, dy) := KICKS[i];
          if !IsCollision(board, current, dx, dy) {
            current := current.(x := current.x + dx, y := current.y + dy);
            kicked := true;
            assert FirstFit(board, turned, KICKS) == Some(i);
            break;
          }
          i := i + 1;
        }
        if !kicked {
          current := current.(shape := originalShape);
          return false;
        }
      }
      return true;
    }

    /** The counters as one value. */
    ghost function Counters(): Stats
      reads this
    {
      Stats(score, lines, level, dropInterval)
    }

    /** clearLines: finds the full rows, then, when there are any, removes them and updates
        the counters at once rather than after the source's 600 ms timer. */
    method ClearLines()
      requires WellFormed(board) && FullRowCount(board) <= 4 && level >= 1
      modifies this`board, this`score, this`lines, this`level, this`dropInterval
      ensures board == Cleared(old(board))
      ensures Counters() == AfterClear(old(Counters()), FullRowCount(old(board)))
    {
      var completed := FindCompletedLines(board);
      if |completed| > 0 {
        RemoveCompletedLines(completed);
      } else {
        GapNotFull(board, completed, -1);
        NothingFullLeft(board, 0, 0);
      }
    }

    /** The body of clearLines' timer callback: removes the listed full rows, then pays for
        them and updates level and drop interval. */
    method RemoveCompletedLines(completed: seq<int>)
      requires WellFormed(board) && ListsFullRows(board, completed)
      requires 0 < |completed| && FullRowCount(board) <= 4 && level >= 1
      modifies this`board, this`score, this`lines, this`level, this`dropInterval
      ensures board == Cleared(old(board))
      ensures Counters() == AfterClear(old(Counters()), FullRowCount(old(board)))
    {
      RemoveRows(completed);
      AddClearedLines(|completed|);
    }

    /** The splice loop of the timer callback: removes the listed full rows from the top-most
        one down, each removal followed by an empty row on top so the indices still to remove
        stay valid. The listed rows are exactly the full ones, so this is the clear. */
    method RemoveRows(completed: seq<int>)
      requires WellFormed(board) && ListsFullRows(board, completed) && 0 < |completed|
      modifies this`board
      ensures board == Cleared(old(board)) && |completed| == FullRowCount(old(board))
    {
      ghost var b0 := board;
      ghost var k: nat, m: nat := 0, 0;
      RemovalStart(b0);
      var i := |completed| - 1;
      while i >= 0
        invariant -1 <= i < |completed| && k == |completed| - 1 - i
        invariant m == DoneUpTo(completed, i) && m <= |b0| && |KeepRows(b0[..m])| + k == m
        invariant board == RemovalState(b0, k, m)
      {
        RemoveRowStep(b0, completed, i, k, m);
        board := board[..completed[i]] + board[completed[i] + 1..];
        board := [EmptyRow()] + board;
        k, m := k + 1, completed[i] + 1;
        i := i - 1;
      }
      assert i == -1;
      RemovalDone(b0, completed, k, m);
    }

    /** The counter update at the end of the timer callback, for n rows cleared at once: the
        points are paid at the level before the update. */
    method AddClearedLines(n: nat)
      requires 0 < n <= 4 && level >= 1
      modifies this`score, this`lines, this`level, this`dropInterval
      ensures Counters() == AfterClear(old(Counters()), n)
    {
      PaidPoints(n, level);
      lines := lines + n;
      score := score + LinePoints(n) * level;
      level := lines / 10 + 1;
      dropInterval := if 1000 - (level - 1) * 50 > 50 then 1000 - (level - 1) * 50 else 50;
    }

    /** placePiece: commits the piece into the board, then clears lines and spawns the next
        piece. */
    method PlacePiece(k: TemplateIndex)
      requires Valid()
      modifies this
      ensures Valid() && State() == Placed(old(State()), k)
    {
      ghost var s0 := State();
      CommitPiece();
      StampFillsAtMostFour(s0.board, current);
      ClearLines();
      ClearedShape(Stamp(s0.board, s0.current));
      GenerateNewPiece(k);
      PlaceSpec(s0, k);
    }

    /** The commit loop of placePiece: writes the colour into the board cells under the
        occupied shape cells that are on or below the top row. */
    method CommitPiece()
      requires WellFormed(board) && InBounds(current)
      modifies this`board
      ensures board == Stamp(old(board), current)
    {
      ghost var b0 := board;
      var y := 0;
      while y < |current.shape|
        invariant 0 <= y <= |current.shape|
        invariant WellFormed(board) && PartlyStamped(board, b0, current, y, 0)
      {
        var x := 0;
        while x < |current.shape[y]|
          invariant 0 <= x <= |current.shape[y]|
          invariant WellFormed(board) && PartlyStamped(board, b0, current, y, x)
        {
          StampCellStep(board, b0, current, y, x);
          if current.shape[y][x] != 0 {
            var boardY := current.y + y;
            var boardX := current.x + x;
            if boardY >= 0 {
              board := board[boardY := board[boardY][boardX := current.color]];
            }
          }
          x := x + 1;
        }
        StampRowDone(board, b0, current, y);
        y := y + 1;
      }
      StampDone(board, b0, current);
    }

    /** hardDrop: fall while the move down succeeds, then place. */
    method HardDrop(k: TemplateIndex)
      requires Valid()
      modifies this
      ensures Valid() && State() == HardDropped(old(State()), k)
    {
      DropToFloor();
      PlacePiece(k);
    }

    /** The loop of hardDrop: the piece falls its whole drop distance, 2 points per row. */
    method DropToFloor()
      requires WellFormed(board) && WellFormedPiece(current) && InBounds(current)
      modifies this`current, this`score
      ensures current == Shift(old(current), 0, DropDistance(board, old(current)))
      ensures score == old(score) + 2 * DropDistance(board, old(current))
      ensures WellFormedPiece(current) && InBounds(current)
    {
      ghost var p0 := current;
      ghost var d := 0;
      while true
        invariant current == Shift(p0, 0, d) && WellFormedPiece(current) && InBounds(current)
        invariant score == old(score) + 2 * d
        invariant d + DropDistance(board, current) == DropDistance(board, p0)
        decreases HEIGHT - current.y
      {
        InBoundsAboveFloor(current);
        ghost var before := current;
        var moved := MovePiece(0, 1);
        if !moved {
          break;
        }
        FitsInBounds(board, before, 0, 1);
        score := score + 2;
        d := d + 1;
      }
    }

    /** handleKeyPress, with k standing for the random draw a hard drop's placement makes. */
    method HandleKeyPress(key: Key, k: TemplateIndex)
      requires Valid()
      modifies this
      ensures Valid() && State() == KeyPress(old(State()), key, k)
    {
      KeyPressSpec(State(), key, k);
      if !running || paused {
        return;
      }
      ghost var s0 := State();
      match key {
        case ArrowLeft =>
          var moved := MovePiece(-1, 0);
        case ArrowRight =>
          var moved := MovePiece(1, 0);
        case ArrowDown =>
          var moved := MovePiece(0, 1);
          if moved {
            score := score + 1;
          }
        case ArrowUp =>
          var rotated := RotatePiece();
        case Space =>
          HardDrop(k);
        case KeyP =>
          PauseGame();
        case Other =>
      }
    }

    /** startGame: the game loop it starts is not modelled. */
    method StartGame()
      modifies this`running, this`paused
      ensures State() == Started(old(State()))
    {
      if !running {
        running := true;
        paused := false;
      }
    }

    /** pauseGame. */
    method PauseGame()
      modifies this`paused
      ensures State() == Paused(old(State()))
    {
      paused := !paused;
    }

    /** restartGame, with k1 and k2 standing for its two random draws. */
    method RestartGame(k1: TemplateIndex, k2: TemplateIndex)
      requires Valid()
      modifies this
      ensures Valid() && State() == Restarted(old(State()), k1, k2)
    {
      ghost var s0 := State();
      running := false;
      paused := false;
      score := 0;
      level := 1;
      lines := 0;
      dropInterval := 1000;
      InitBoard();
      EmptyBoardShape();
      GenerateNewPiece(k1);
      GenerateNewPiece(k2);
      RestartIsInitial(s0, k1, k1, k2);
    }

    /** gameOver: only the running flag; the modal and the sound are not modelled. */
    method GameOver()
      modifies this`running
      ensures State() == Ended(old(State()))
    {
      running := false;
    }

    /** update, without the clock: the step made when the drop interval has passed. */
    method Update(k: TemplateIndex)
      requires Valid()
      modifies this
      ensures Valid() && State() == Tick(old(State()), k)
    {
      TickSpec(State(), k);
      var moved := MovePiece(0, 1);
      if !moved {
        PlacePiece(k);
      }
    }
  }
}
