/**
 * The game session of js/game.js: the module-level fields become the fields
 * of one Session object, and each handler becomes a method that updates them
 * in place. Each event handler is proved to lead to the state the matching
 * function of GameSpec describes and to keep the session invariant. The
 * helpers they call have narrower contracts: InitBoard, UpdateDropInterval,
 * LockCells and SweepFullRows state the board or timer they produce, and
 * ClearLines, ClearLinesClassic, SpawnNewPiece and GameOver reach their
 * GameSpec state without the invariant, which holds again once the whole
 * lock has finished.
 */
module Game {
  import opened Wrappers
  import opened Tetrominoes
  import opened Grid
  import opened Collision
  import opened Scoring
  import opened GameSpec

  /** The body of the kicking rotation on the falling piece: rotate, then
      try one column left, then one column right, and restore the original
      shape and column when nothing fits. */
  method KickRotate(current: Piece, board: Board) returns (piece: Piece)
    requires IsSquare(current.shape)
    ensures piece == KickPlacement(current, board)
  {
    var rotated := BuildRotated(current.shape);
    var originalShape := current.shape;
    piece := current.(shape := rotated);
    var hit := CheckCollision(piece, board);
    if hit {
      piece := piece.(x := piece.x - 1);
      hit := CheckCollision(piece, board);
      if hit {
        piece := piece.(x := piece.x + 2);
        hit := CheckCollision(piece, board);
        if hit {
          piece := piece.(x := piece.x - 1);
          piece := piece.(shape := originalShape);
        }
      }
    }
  }

  class Session {
    var board: Board
    var currentPiece: Option<Piece>
    var nextPiece: Option<Piece>
    var score: int
    var level: int
    var lines: int
    var isPaused: bool
    var isGameOver: bool
    /** The armed fall timer's period, or None when no timer runs. */
    var dropTimer: Option<int>

    ghost function Snapshot(): GameState
      reads this
    {
      GameState(board, currentPiece, nextPiece, score, level, lines, isPaused, isGameOver, dropTimer)
    }

    ghost predicate Valid()
      reads this
    {
      Inv(Snapshot())
    }

    /** The session once the page has loaded and drawn the empty board. */
    constructor ()
      ensures Valid() && Snapshot() == InitialState()
    {
      board := EmptyBoard();
      currentPiece, nextPiece := None, None;
      score, level, lines := 0, 1, 0;
      isPaused, isGameOver := false, false;
      dropTimer := None;
      InitialInv();
    }

    method InitBoard()
      modifies this`board
      ensures board == EmptyBoard()
    {
      board := EmptyBoard();
    }

    /** Arms the fall timer with the current level's period, replacing any
        timer that was armed. */
    method UpdateDropInterval()
      modifies this`dropTimer
      ensures dropTimer == Some(DropInterval(level))
    {
      var baseSpeed := 1000;
      var speedDecrease := Min(level - 1, 15) * 50;
      dropTimer := Some(Max(baseSpeed - speedDecrease, 100));
    }

    /** Starts a session; from a finished game it goes through ResetGame. */
    method StartGame(first: PieceType, second: PieceType)
      modifies this
      ensures Valid() && Snapshot() == StartSpec(first, second)
      decreases if isGameOver then 2 else 0
    {
      if isGameOver {
        ResetGame(first, second);
        return;
      }
      isPaused := false;
      isGameOver := false;
      dropTimer := None;
      InitBoard();
      score := 0;
      level := 1;
      lines := 0;
      currentPiece := Some(GetRandomPiece(first));
      nextPiece := Some(GetRandomPiece(second));
      UpdateDropInterval();
      StartInv(first, second);
    }

    method ResetGame(first: PieceType, second: PieceType)
      modifies this
      ensures Valid() && Snapshot() == StartSpec(first, second)
      decreases 1
    {
      isGameOver := false;
      isPaused := false;
      score := 0;
      level := 1;
      lines := 0;
      currentPiece := None;
      nextPiece := None;
      dropTimer := None;
      InitBoard();
      StartGame(first, second);
    }

    method MoveLeft()
      requires Valid()
      modifies this
      ensures Valid() && Snapshot() == ShiftSpec(old(Snapshot()), -1)
    {
      ShiftProps(Snapshot(), -1);
      if currentPiece.None? || isPaused || isGameOver {
        return;
      }
      currentPiece := Some(currentPiece.value.(x := currentPiece.value.x - 1));
      var hit := CheckCollision(currentPiece.value, board);
      if hit {
        currentPiece := Some(currentPiece.value.(x := currentPiece.value.x + 1));
      }
    }

    method MoveRight()
      requires Valid()
      modifies this
      ensures Valid() && Snapshot() == ShiftSpec(old(Snapshot()), 1)
    {
      ShiftProps(Snapshot(), 1);
      if currentPiece.None? || isPaused || isGameOver {
        return;
      }
      currentPiece := Some(currentPiece.value.(x := currentPiece.value.x + 1));
      var hit := CheckCollision(currentPiece.value, board);
      if hit {
        currentPiece := Some(currentPiece.value.(x := currentPiece.value.x - 1));
      }
    }

    /** Returns false exactly when the step down collided and the piece was
        locked. */
    method MoveDown(drawn: PieceType) returns (moved: bool)
      requires Valid()
      modifies this
      ensures Valid() && (Snapshot(), moved) == MoveDownSpec(old(Snapshot()), drawn)
    {
      ghost var s := Snapshot();
      MoveDownProps(s, drawn);
      if currentPiece.None? || isPaused || isGameOver {
        return true;
      }
      ghost var down := currentPiece.value.(y := currentPiece.value.y + 1);
      currentPiece := Some(currentPiece.value.(y := currentPiece.value.y + 1));
      var hit := CheckCollision(currentPiece.value, board);
      if hit {
        currentPiece := Some(currentPiece.value.(y := currentPiece.value.y - 1));
        assert Snapshot() == s;
        assert MoveDownSpec(s, drawn) == (LockAndSpawn(s, drawn), false);
        LockPiece(drawn);
        return false;
      }
      assert Snapshot() == s.(current := Some(down));
      assert MoveDownSpec(s, drawn) == (s.(current := Some(down)), true);
      return true;
    }

    method HardDrop(drawn: PieceType)
      requires Valid()
      modifies this
      ensures Valid() && Snapshot() == HardDropSpec(old(Snapshot()), drawn)
    {
      if currentPiece.None? || isPaused || isGameOver {
        return;
      }
      ghost var target := HardDropSpec(Snapshot(), drawn);
      HardDropUnfolds(Snapshot(), drawn);
      var moved := MoveDown(drawn);
      while moved
        invariant Valid()
        invariant moved ==> Active(Snapshot()) && HardDropSpec(Snapshot(), drawn) == target
        invariant !moved ==> Snapshot() == target
        decreases if moved && currentPiece.Some? then Height + 1 - currentPiece.value.y else 0
      {
        FitsIsAboveFloor(currentPiece.value, board);
        HardDropUnfolds(Snapshot(), drawn);
        moved := MoveDown(drawn);
      }
    }

    /** Rotation of js/game.js: keep the rotated shape only if it fits. */
    method Rotate()
      requires Valid()
      modifies this
      ensures Valid() && Snapshot() == RotateSpec(old(Snapshot()))
    {
      RotateProps(Snapshot());
      if currentPiece.None? || isPaused || isGameOver {
        return;
      }
      var originalShape := currentPiece.value.shape;
      var rotated := BuildRotated(originalShape);
      currentPiece := Some(currentPiece.value.(shape := rotated));
      var hit := CheckCollision(currentPiece.value, board);
      if hit {
        currentPiece := Some(currentPiece.value.(shape := originalShape));
      }
    }

    /** Rotation of the second copy in js/tetrominoes.js, with its two-step
        wall kick. */
    method RotateWithKick()
      requires Valid()
      modifies this
      ensures Valid() && Snapshot() == RotateWithKickSpec(old(Snapshot()))
    {
      RotateWithKickProps(Snapshot());
      if currentPiece.None? {
        return;
      }
      var placed := KickRotate(currentPiece.value, board);
      currentPiece := Some(placed);
    }

    /** Writes the falling piece's key into the board, then clears lines and
        spawns the next piece. */
    method LockPiece(drawn: PieceType)
      requires Valid() && Active(Snapshot())
      modifies this
      ensures Valid() && Snapshot() == LockAndSpawn(old(Snapshot()), drawn)
    {
      LockAndSpawnProps(Snapshot(), drawn);
      FitsIsInBounds(currentPiece.value, board);
      LockedFullRows(board, currentPiece.value);
      LockCells();
      ClearLines();
      SpawnNewPiece(drawn);
    }

    /** The nested loop of lockPiece: for every occupied shape cell whose
        board row is not above the board, store the piece's key there. */
    method LockCells()
      requires currentPiece.Some? && WellFormed(board) && InBounds(currentPiece.value)
      modifies this`board
      ensures board == Locked(old(board), currentPiece.value)
    {
      var piece := currentPiece.value;
      var shape := piece.shape;
      ghost var original := board;
      LockStart(original, piece);
      var y := 0;
      while y < |shape|
        invariant 0 <= y <= |shape|
        invariant board == LockedUpTo(original, piece, y, 0)
      {
        var x := 0;
        while x < |shape[y]|
          invariant 0 <= x <= |shape[y]|
          invariant board == LockedUpTo(original, piece, y, x)
        {
          LockStep(original, piece, y, x);
          if shape[y][x] != 0 {
            var boardY := piece.y + y;
            var boardX := piece.x + x;
            if boardY >= 0 {
              board := board[boardY := board[boardY][boardX := Filled(piece.kind)]];
            }
          }
          x := x + 1;
        }
        LockRowDone(original, piece, y);
        y := y + 1;
      }
    }

    /** The scan of clearLines: from the bottom row up, remove each full row
        and put an empty row on top, then look at the same row index again. */
    method SweepFullRows() returns (linesCleared: nat)
      requires WellFormed(board)
      modifies this`board
      ensures board == Cleared(old(board)) && linesCleared == FullCount(old(board))
    {
      ghost var original := board;
      ghost var m: nat := Height;
      linesCleared := 0;
      SweepEnds(original);
      var y := Height - 1;
      while y >= 0
        invariant -1 <= y < Height
        invariant m <= Height
        invariant linesCleared == FullCount(original[m..])
        invariant board == SweepState(original, m, linesCleared)
        invariant m > 0 ==> y == linesCleared + m - 1
        invariant m == 0 ==> y < linesCleared
        decreases y + 1, m
      {
        SweepHeight(original, m);
        if m > 0 {
          SweepStep(original, m, linesCleared);
        } else {
          SweepTopRow(original, linesCleared, y);
          EmptyRowNotFull();
        }
        if IsFull(board[y]) {
          board := board[..y] + board[y + 1..];
          board := [EmptyRow()] + board;
          linesCleared := linesCleared + 1;
          m := m - 1;
          y := y + 1;
        } else if m > 0 {
          m := m - 1;
        }
        y := y - 1;
      }
    }

    /** clearLines of js/game.js: sweep, then score with 0/100/300/500/800. */
    method ClearLines()
      requires WellFormed(board) && FullCount(board) <= 4
      modifies this
      ensures Snapshot() == ClearLinesSpec(old(Snapshot()))
    {
      var n := SweepFullRows();
      if n > 0 {
        lines := lines + n;
        score := score + LineScore(n) * level;
        level := LevelFor(lines);
        UpdateDropInterval();
      }
    }

    /** clearLines of js/tetrominoes.js: sweep, then score with
        0/40/100/300/1200. */
    method ClearLinesClassic()
      requires WellFormed(board) && FullCount(board) <= 4
      modifies this
      ensures Snapshot() == ClearLinesClassicSpec(old(Snapshot()))
    {
      var n := SweepFullRows();
      if n > 0 {
        lines := lines + n;
        score := score + ClassicLineScore(n) * level;
        level := LevelFor(lines);
        UpdateDropInterval();
      }
    }

    method SpawnNewPiece(drawn: PieceType)
      requires nextPiece.Some?
      modifies this
      ensures Snapshot() == SpawnSpec(old(Snapshot()), drawn)
    {
      currentPiece := nextPiece;
      nextPiece := Some(GetRandomPiece(drawn));
      var hit := CheckCollision(currentPiece.value, board);
      if hit {
        GameOver();
      }
    }

    method GameOver()
      modifies this
      ensures Snapshot() == GameOverSpec(old(Snapshot()))
    {
      isGameOver := true;
      dropTimer := None;
    }

    method PauseGame()
      requires Valid()
      modifies this
      ensures Valid() && Snapshot() == PauseSpec(old(Snapshot()))
    {
      PauseProps(Snapshot());
      if isGameOver {
        return;
      }
      isPaused := !isPaused;
      if isPaused {
        dropTimer := None;
      } else {
        UpdateDropInterval();
      }
    }

    /** The fall timer's callback. */
    method Tick(drawn: PieceType)
      requires Valid()
      modifies this
      ensures Valid() && Snapshot() == TickSpec(old(Snapshot()), drawn)
    {
      if !isPaused && !isGameOver {
        var moved := MoveDown(drawn);
      }
    }

    /** The keydown listener. */
    method KeyDown(key: KeyCode, drawn: PieceType)
      requires Valid()
      modifies this
      ensures Valid() && Snapshot() == KeyDownSpec(old(Snapshot()), key, drawn)
    {
      if isPaused || isGameOver {
        return;
      }
      match key
      case ArrowLeft => MoveLeft();
      case ArrowRight => MoveRight();
      case ArrowDown => var moved := MoveDown(drawn);
      case ArrowUp => Rotate();
      case Space => HardDrop(drawn);
      case KeyP => PauseGame();
      case OtherKey =>
    }
  }
}
