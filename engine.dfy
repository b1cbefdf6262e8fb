/** The game session as a value, and one transition function per operation of the Tetris
    class. The class in module Game is proved to perform exactly these transitions. */
module Engine {
  import opened Pieces
  import opened Board
  import opened Rotation
  import opened Scoring

  /** Everything the engine holds: the board, the falling piece, the one-piece look-ahead,
      the counters, and the running and paused flags. */
  datatype Session = Session(board: Grid, current: Piece, next: Piece, stats: Stats,
                             running: bool, paused: bool)

  /** What every operation keeps: a 20 x 10 board without full rows, well-formed pieces, the
      falling one inside the walls and above the floor, and counters that agree. */
  predicate Invariant(s: Session) {
    WellFormed(s.board) && NoFullRow(s.board)
    && WellFormedPiece(s.current) && InBounds(s.current) && WellFormedPiece(s.next)
    && Consistent(s.stats)
  }

  /** The spawn position: column WIDTH / 2 - side / 2, top row. */
  function SpawnPose(p: Piece): Piece
    requires WellFormedPiece(p)
  {
    p.(x := WIDTH / 2 - |p.shape[0]| / 2, y := 0)
  }

  /** A spawned piece is centred (column 4 for sides 2 and 3, column 3 for side 4), on the
      top row, and inside the walls and above the floor. */
  lemma SpawnPoseInBounds(p: Piece)
    requires WellFormedPiece(p)
    ensures var q := SpawnPose(p);
            WellFormedPiece(q) && InBounds(q) && q.y == 0 && q.x == (if |p.shape| == 4 then 3 else 4)
  {
  }

  /** On an empty board a spawned piece never collides. */
  lemma SpawnOnEmptyBoardFits(p: Piece)
    requires WellFormedPiece(p)
    ensures !IsCollision(EmptyBoard(), SpawnPose(p), 0, 0)
  {
    SpawnPoseInBounds(p);
    EmptyBoardCollision(SpawnPose(p), 0, 0);
    assert Shift(SpawnPose(p), 0, 0) == SpawnPose(p);
  }

  /** generateNewPiece: the look-ahead piece becomes the falling one at the spawn position,
      catalog entry k becomes the look-ahead, and the game ends if the spawn pose collides. */
  function Spawn(s: Session, k: TemplateIndex): (r: Session)
    requires WellFormed(s.board) && WellFormedPiece(s.next)
    ensures r.board == s.board && r.stats == s.stats && r.paused == s.paused
    ensures r.running ==> s.running
  {
    var cur := SpawnPose(s.next);
    s.(current := cur, next := CreatePiece(k),
       running := s.running && !IsCollision(s.board, cur, 0, 0))
  }

  /** A spawn keeps the invariant, and it stops the game exactly when the spawn pose collides. */
  lemma SpawnSpec(s: Session, k: TemplateIndex)
    requires WellFormed(s.board) && NoFullRow(s.board) && WellFormedPiece(s.next) && Consistent(s.stats)
    ensures Invariant(Spawn(s, k))
    ensures Spawn(s, k).current == SpawnPose(s.next) && Spawn(s, k).next == CreatePiece(k)
    ensures s.running ==> (Spawn(s, k).running <==> !IsCollision(s.board, SpawnPose(s.next), 0, 0))
  {
    SpawnPoseInBounds(s.next);
  }

  /** movePiece: shift by (dx, dy) when the shifted pose does not collide, else stay. */
  function Moved(s: Session, dx: int, dy: int): (r: Session)
    requires WellFormed(s.board)
    ensures r.(current := s.current) == s
    ensures r.current.shape == s.current.shape && r.current.color == s.current.color
  {
    if IsCollision(s.board, s.current, dx, dy) then s else s.(current := Shift(s.current, dx, dy))
  }

  /** A move keeps the invariant, and a successful move is undone by the opposite move. */
  lemma MoveSpec(s: Session, dx: int, dy: int)
    requires Invariant(s)
    ensures Invariant(Moved(s, dx, dy))
    ensures !IsCollision(s.board, s.current, dx, dy) && !IsCollision(s.board, s.current, 0, 0) ==>
              Moved(Moved(s, dx, dy), -dx, -dy) == s
  {
    if !IsCollision(s.board, s.current, dx, dy) {
      FitsInBounds(s.board, s.current, dx, dy);
      var back := Moved(s, dx, dy);
      assert IsCollision(back.board, back.current, -dx, -dy) == IsCollision(s.board, s.current, 0, 0);
    }
  }

  /** rotatePiece: rotate clockwise and take the first of the offsets (0, 0) and KICKS at which
      the rotated piece does not collide; when none fits, the piece is unchanged. */
  function Rotated(s: Session): (r: Session)
    requires WellFormed(s.board) && IsSquare(s.current.shape)
    ensures r.(current := s.current) == s && r.current.color == s.current.color
  {
    var turned := s.current.(shape := RotateMatrix(s.current.shape));
    match FirstFit(s.board, turned, ROTATION_OFFSETS)
    case None => s
    case Some(t) => s.(current := Shift(turned, ROTATION_OFFSETS[t].0, ROTATION_OFFSETS[t].1))
  }

  /** The rotation succeeds exactly when some offset fits; then the piece has the rotated shape,
      does not collide, and was moved by the first fitting offset; otherwise nothing changes. */
  lemma RotateSpec(s: Session)
    requires Invariant(s)
    ensures Invariant(Rotated(s))
    ensures var turned := s.current.(shape := RotateMatrix(s.current.shape));
            var r := Rotated(s);
            if exists t :: 0 <= t < |ROTATION_OFFSETS| &&
                           !IsCollision(s.board, turned, ROTATION_OFFSETS[t].0, ROTATION_OFFSETS[t].1)
            then !IsCollision(r.board, r.current, 0, 0)
                 && r.current.shape == turned.shape && r.current.color == s.current.color
                 && exists t :: 0 <= t < |ROTATION_OFFSETS|
                                && r.current == Shift(turned, ROTATION_OFFSETS[t].0, ROTATION_OFFSETS[t].1)
                                && forall u :: 0 <= u < t ==>
                                     IsCollision(s.board, turned, ROTATION_OFFSETS[u].0, ROTATION_OFFSETS[u].1)
            else r == s
  {
    var turned := s.current.(shape := RotateMatrix(s.current.shape));
    RotatePreservesWellFormed(s.current);
    var fit := FirstFit(s.board, turned, ROTATION_OFFSETS);
    if fit.Some? {
      var o := ROTATION_OFFSETS[fit.index];
      FitsInBounds(s.board, turned, o.0, o.1);
      var r := Rotated(s);
      assert IsCollision(r.board, r.current, 0, 0) == IsCollision(s.board, turned, o.0, o.1);
    }
  }

  /** placePiece: commit the piece into the board, clear the full rows (synchronously) and
      update the counters, then spawn catalog entry k as the new look-ahead. */
  function Placed(s: Session, k: TemplateIndex): (r: Session)
    requires Invariant(s)
    ensures r.paused == s.paused && (r.running ==> s.running)
    ensures r.stats.score >= s.stats.score && r.stats.lines >= s.stats.lines
  {
    var stamped := Stamp(s.board, s.current);
    StampFillsAtMostFour(s.board, s.current);
    ClearedShape(stamped);
    Spawn(s.(board := Cleared(stamped), stats := AfterClear(s.stats, FullRowCount(stamped))), k)
  }

  /** A placement keeps the invariant (so at most four rows are ever cleared at once), leaves the
      board equal to the committed board with its full rows cleared, and pays for those rows. */
  lemma PlaceSpec(s: Session, k: TemplateIndex)
    requires Invariant(s)
    ensures var stamped := Stamp(s.board, s.current);
            var n := FullRowCount(stamped);
            var r := Placed(s, k);
            n <= 4 && Invariant(r) && r.board == Cleared(stamped)
            && r.stats.lines == s.stats.lines + n
            && r.stats.score == s.stats.score + LinePoints(n) * s.stats.level
            && r.current == SpawnPose(s.next) && r.next == CreatePiece(k)
  {
    var stamped := Stamp(s.board, s.current);
    StampFillsAtMostFour(s.board, s.current);
    ClearedShape(stamped);
    AfterClearSpec(s.stats, FullRowCount(stamped));
    SpawnSpec(s.(board := Cleared(stamped), stats := AfterClear(s.stats, FullRowCount(stamped))), k);
  }

  /** Number of rows the piece can still fall: every pose down to it is free, and one row
      further collides. */
  function DropDistance(b: Grid, p: Piece): (d: nat)
    requires WellFormed(b) && InBounds(p) && HasBlock(p.shape)
    ensures InBounds(Shift(p, 0, d))
    ensures IsCollision(b, p, 0, d + 1)
    ensures forall t :: 1 <= t <= d ==> !IsCollision(b, p, 0, t)
    decreases HEIGHT - p.y
  {
    InBoundsAboveFloor(p);
    if IsCollision(b, p, 0, 1) then
      assert Shift(p, 0, 0) == p;
      0
    else
      FitsInBounds(b, p, 0, 1);
      var q := Shift(p, 0, 1);
      var d := DropDistance(b, q);
      assert forall t :: 1 <= t <= d + 1 ==> IsCollision(b, q, 0, t - 1) == IsCollision(b, p, 0, t);
      1 + d
  }

  /** hardDrop: 2 points per row fallen, then the piece is placed where it landed. */
  function HardDropped(s: Session, k: TemplateIndex): (r: Session)
    requires Invariant(s)
    ensures r.paused == s.paused && (r.running ==> s.running)
    ensures r.stats.score >= s.stats.score
  {
    var d := DropDistance(s.board, s.current);
    Placed(s.(current := Shift(s.current, 0, d), stats := s.stats.(score := s.stats.score + 2 * d)), k)
  }

  /** A hard drop lands the piece where one more row down collides, after every row above it
      was free, and adds 2 points per row fallen to what the placement pays. */
  lemma HardDropSpec(s: Session, k: TemplateIndex)
    requires Invariant(s)
    ensures var d := DropDistance(s.board, s.current);
            var landed := Shift(s.current, 0, d);
            var stamped := Stamp(s.board, landed);
            var n := FullRowCount(stamped);
            var r := HardDropped(s, k);
            IsCollision(s.board, landed, 0, 1)
            && (forall t :: 1 <= t <= d ==> !IsCollision(s.board, s.current, 0, t))
            && n <= 4 && Invariant(r) && r.board == Cleared(stamped)
            && r.stats.score == s.stats.score + 2 * d + LinePoints(n) * s.stats.level
  {
    var d := DropDistance(s.board, s.current);
    var landed := Shift(s.current, 0, d);
    assert IsCollision(s.board, landed, 0, 1) == IsCollision(s.board, s.current, 0, d + 1);
    PlaceSpec(s.(current := landed, stats := s.stats.(score := s.stats.score + 2 * d)), k);
  }

  /** The keys the handler distinguishes; every other key does nothing. */
  datatype Key = ArrowLeft | ArrowRight | ArrowDown | ArrowUp | Space | KeyP | Other

  /** handleKeyPress: ignored unless running and not paused; a soft drop pays 1 point when the
      piece moves; Space hard-drops and places (drawing catalog entry k); P toggles the pause. */
  function KeyPress(s: Session, key: Key, k: TemplateIndex): (r: Session)
    requires Invariant(s)
    ensures r.running ==> s.running
    ensures r.paused != s.paused ==> key == KeyP
    ensures r.stats.score >= s.stats.score
  {
    if !s.running || s.paused then s
    else match key
      case ArrowLeft => Moved(s, -1, 0)
      case ArrowRight => Moved(s, 1, 0)
      case ArrowDown =>
        if IsCollision(s.board, s.current, 0, 1) then s
        else Moved(s, 0, 1).(stats := s.stats.(score := s.stats.score + 1))
      case ArrowUp => Rotated(s)
      case Space => HardDropped(s, k)
      case KeyP => Paused(s)
      case Other => s
  }

  /** A key press keeps the invariant. Keys do nothing unless the game runs and is not paused,
      so the P key can pause but never resume; a soft drop pays exactly 1 point when it moves. */
  lemma KeyPressSpec(s: Session, key: Key, k: TemplateIndex)
    requires Invariant(s)
    ensures Invariant(KeyPress(s, key, k))
    ensures !s.running || s.paused ==> KeyPress(s, key, k) == s
    ensures s.running && !s.paused && key == ArrowDown ==>
              KeyPress(s, key, k).stats.score ==
                s.stats.score + (if IsCollision(s.board, s.current, 0, 1) then 0 else 1)
    ensures s.running && !s.paused && key == KeyP ==> KeyPress(s, key, k).paused
  {
    if s.running && !s.paused {
      match key
      case ArrowLeft => MoveSpec(s, -1, 0);
      case ArrowRight => MoveSpec(s, 1, 0);
      case ArrowDown => MoveSpec(s, 0, 1);
      case ArrowUp => RotateSpec(s);
      case Space => HardDropSpec(s, k);
      case KeyP =>
      case Other =>
    }
  }

  /** update, without the clock: move down one row, or place the piece when it cannot. */
  function Tick(s: Session, k: TemplateIndex): (r: Session)
    requires Invariant(s)
    ensures r.paused == s.paused && (r.running ==> s.running)
    ensures r.stats.score >= s.stats.score
  {
    if !IsCollision(s.board, s.current, 0, 1) then Moved(s, 0, 1) else Placed(s, k)
  }

  /** A tick keeps the invariant; it places the piece exactly when it cannot fall, and
      otherwise moves it one row down over the same board. */
  lemma TickSpec(s: Session, k: TemplateIndex)
    requires Invariant(s)
    ensures Invariant(Tick(s, k))
    ensures IsCollision(s.board, s.current, 0, 1) ==>
              Tick(s, k) == Placed(s, k) && Tick(s, k).current == SpawnPose(s.next)
    ensures !IsCollision(s.board, s.current, 0, 1) ==>
              Tick(s, k).current == Shift(s.current, 0, 1) && Tick(s, k).board == s.board
  {
    MoveSpec(s, 0, 1);
    PlaceSpec(s, k);
  }

  /** startGame: from stopped to running and unpaused; nothing when already running. */
  function Started(s: Session): (r: Session)
    ensures r.running && r.(running := s.running, paused := s.paused) == s
  {
    if !s.running then s.(running := true, paused := false) else s
  }

  /** pauseGame: toggles the pause flag whatever the state. */
  function Paused(s: Session): (r: Session)
    ensures r.paused != s.paused && r.(paused := s.paused) == s
  {
    s.(paused := !s.paused)
  }

  /** gameOver: only clears the running flag. */
  function Ended(s: Session): (r: Session)
    ensures !r.running && r.(running := s.running) == s
  {
    s.(running := false)
  }

  /** The session a new game object starts with: the first spawn finds no look-ahead piece and
      draws k0 for it, promotes it and draws k1; the second promotes k1 and draws k2. The
      placeholder for the falling piece is overwritten by the first spawn. */
  function Initial(k0: TemplateIndex, k1: TemplateIndex, k2: TemplateIndex): (r: Session)
    ensures r.board == EmptyBoard() && r.stats == INITIAL_STATS && !r.running && !r.paused
    ensures r.next == CreatePiece(k2)
  {
    EmptyBoardShape();
    var blank := Session(EmptyBoard(), CreatePiece(k0), CreatePiece(k0), INITIAL_STATS, false, false);
    Spawn(Spawn(blank, k1), k2)
  }

  /** restartGame: stopped, unpaused, counters and board reset, then two spawns. */
  function Restarted(s: Session, k1: TemplateIndex, k2: TemplateIndex): (r: Session)
    requires WellFormedPiece(s.next)
    ensures r.board == EmptyBoard() && r.stats == INITIAL_STATS && !r.running && !r.paused
    ensures r.next == CreatePiece(k2)
  {
    EmptyBoardShape();
    Spawn(Spawn(s.(board := EmptyBoard(), stats := INITIAL_STATS, running := false, paused := false), k1), k2)
  }

  /** A new game and a restarted one are the same session: an empty board, zero counters,
      stopped, with k1 falling from the spawn position and k2 next. The piece that was next
      before the restart is discarded. */
  lemma RestartIsInitial(s: Session, k0: TemplateIndex, k1: TemplateIndex, k2: TemplateIndex)
    requires WellFormedPiece(s.next)
    ensures Restarted(s, k1, k2) == Initial(k0, k1, k2)
    ensures var r := Initial(k0, k1, k2);
            Invariant(r) && r.board == EmptyBoard() && r.stats == INITIAL_STATS && !r.running && !r.paused
            && r.current == SpawnPose(CreatePiece(k1)) && r.next == CreatePiece(k2)
  {
    EmptyBoardShape();
    var blank := Session(EmptyBoard(), CreatePiece(k0), CreatePiece(k0), INITIAL_STATS, false, false);
    SpawnSpec(blank, k1);
    SpawnSpec(Spawn(blank, k1), k2);
  }

  /** A spawn whose pose collides ends the game, and every key is ignored afterwards. */
  lemma GameOverBlocksInput(s: Session, k: TemplateIndex, key: Key, k': TemplateIndex)
    requires WellFormed(s.board) && NoFullRow(s.board) && WellFormedPiece(s.next) && Consistent(s.stats)
    requires IsCollision(s.board, SpawnPose(s.next), 0, 0)
    ensures !Spawn(s, k).running
    ensures Invariant(Spawn(s, k)) && KeyPress(Spawn(s, k), key, k') == Spawn(s, k)
  {
    SpawnSpec(s, k);
  }

  /** Start, pause and game over keep the invariant; start does nothing on a running game. */
  lemma ControlSpec(s: Session)
    requires Invariant(s)
    ensures Invariant(Started(s)) && Invariant(Paused(s)) && Invariant(Ended(s))
    ensures s.running ==> Started(s) == s
    ensures !s.running ==> Started(s).running && !Started(s).paused
    ensures Paused(Paused(s)) == s
  {
  }
}
