/**
 * The game session of js/game.js as a value, and one function per session
 * operation giving the state it leads to. The Session class in game.dfy is
 * proved to follow these functions; the lemmas here state what the
 * operations promise, chief among them the session invariant `Inv`.
 */
module GameSpec {
  import opened Wrappers
  import opened Tetrominoes
  import opened Grid
  import opened Collision
  import opened Scoring

  /** The module-level fields of js/game.js. `dropTimer` stands for the
      interval timer: `Some(ms)` while a fall timer with period `ms` is
      armed, `None` once it has been cleared or before one was set. */
  datatype GameState = GameState(
    board: Board,
    current: Option<Piece>,
    next: Option<Piece>,
    score: int,
    level: int,
    lines: int,
    paused: bool,
    over: bool,
    dropTimer: Option<int>)

  /** The keyboard codes the keydown handler distinguishes. */
  datatype KeyCode = ArrowLeft | ArrowRight | ArrowDown | ArrowUp | Space | KeyP | OtherKey

  /** A piece is falling and the session accepts moves. */
  ghost predicate Active(s: GameState)
  {
    s.current.Some? && !s.paused && !s.over
  }

  /** The session invariant. The board is 20 by 10 with no full row; a
      started session has a catalog piece falling and one waiting; while the
      game is not over the falling piece does not collide; the level follows
      the cleared lines; the fall timer is armed exactly while the session is
      running, with the period of the current level. */
  ghost predicate Inv(s: GameState)
  {
    && WellFormed(s.board) && NoFullRow(s.board)
    && (s.current.Some? <==> s.next.Some?)
    && (s.current.Some? ==> WellFormedPiece(s.current.value) && WellFormedPiece(s.next.value))
    && (s.current.None? ==> !s.over)
    && (s.current.Some? && !s.over ==> !Collides(s.current.value, s.board))
    && s.lines >= 0 && s.level == LevelFor(s.lines) && s.score >= 0
    && (s.dropTimer.Some? ==> !s.paused && !s.over && s.dropTimer.value == DropInterval(s.level))
    && (Active(s) ==> s.dropTimer.Some?)
  }

  /** The state once the page has loaded: an empty board, no piece yet. */
  function InitialState(): GameState
  {
    GameState(EmptyBoard(), None, None, 0, 1, 0, false, false, None)
  }

  /** `startGame` (and `resetGame`, which ends in it): a drawn session whose
      two pieces are drawn as `first` and `second`. */
  function StartSpec(first: PieceType, second: PieceType): GameState
  {
    GameState(EmptyBoard(), Some(GetRandomPiece(first)), Some(GetRandomPiece(second)),
              0, 1, 0, false, false, Some(DropInterval(1)))
  }

  lemma InitialInv()
    ensures Inv(InitialState()) && !Active(InitialState())
  {
    EmptyBoardWellFormed();
  }

  /** A started session satisfies the invariant and is running. */
  lemma StartInv(first: PieceType, second: PieceType)
    ensures Inv(StartSpec(first, second)) && Active(StartSpec(first, second))
    ensures StartSpec(first, second).dropTimer == Some(1000)
  {
    EmptyBoardWellFormed();
    SpawnFits(first);
  }

  // ---------------------------------------------------------------------
  // Moves and rotation

  /** `movePieceLeft` (dx = -1) and `movePieceRight` (dx = 1). */
  ghost function ShiftSpec(s: GameState, dx: int): GameState
  {
    if !Active(s) then s
    else
      var p := s.current.value;
      var q := p.(x := p.x + dx);
      if Collides(q, s.board) then s else s.(current := Some(q))
  }

  /** A sideways move changes only the falling piece, and of it only x: by
      exactly dx when the shifted piece fits, by nothing otherwise. */
  lemma ShiftProps(s: GameState, dx: int)
    requires Inv(s) && dx != 0
    ensures Inv(ShiftSpec(s, dx))
    ensures ShiftSpec(s, dx) == s.(current := ShiftSpec(s, dx).current)
    ensures Active(s) ==>
      var p := s.current.value;
      var p' := ShiftSpec(s, dx).current.value;
      && p' == p.(x := p'.x)
      && (p'.x == p.x + dx <==> !Collides(p.(x := p.x + dx), s.board))
      && (p'.x == p.x || p'.x == p.x + dx)
    ensures !Active(s) ==> ShiftSpec(s, dx) == s
  {
  }

  /** The rotation of js/game.js: the rotated shape is kept only if it fits
      where the piece is; there is no wall kick. */
  ghost function RotateSpec(s: GameState): GameState
    requires Inv(s)
  {
    if !Active(s) then s
    else
      var p := s.current.value;
      var q := RotatedPiece(p);
      if Collides(q, s.board) then s else s.(current := Some(q))
  }

  /** Rotation without a kick never moves the piece and changes nothing but
      its shape, which becomes the rotated shape exactly when that fits. */
  lemma RotateProps(s: GameState)
    requires Inv(s)
    ensures Inv(RotateSpec(s))
    ensures RotateSpec(s) == s.(current := RotateSpec(s).current)
    ensures Active(s) ==>
      var p := s.current.value;
      var p' := RotateSpec(s).current.value;
      && p' == p.(shape := p'.shape)
      && (p'.shape == RotateShape(p.shape) <==> !Collides(RotatedPiece(p), s.board) || RotateShape(p.shape) == p.shape)
      && (p'.shape == p.shape || p'.shape == RotateShape(p.shape))
    ensures !Active(s) ==> RotateSpec(s) == s
  {
    if Active(s) {
      RotateKeepsWellFormed(s.current.value.shape);
    }
  }

  /** Where the kick puts the rotated piece: in place, one column left, one
      column right, or (when none fits) nowhere, leaving the piece as it was. */
  ghost function KickPlacement(p: Piece, board: Board): Piece
    requires IsSquare(p.shape)
  {
    var q := RotatedPiece(p);
    if !Collides(q, board) then q
    else if !Collides(q.(x := p.x - 1), board) then q.(x := p.x - 1)
    else if !Collides(q.(x := p.x + 1), board) then q.(x := p.x + 1)
    else p
  }

  /** The rotation of the second copy in js/tetrominoes.js: try the rotated
      shape in place, then one column left, then one column right, and give
      up otherwise. It checks only that a piece exists, not pause or game
      over. */
  ghost function RotateWithKickSpec(s: GameState): GameState
    requires Inv(s)
  {
    if s.current.None? then s
    else s.(current := Some(KickPlacement(s.current.value, s.board)))
  }

  /** The kick either leaves a rotated piece that fits, in the same row and
      at most one column away, or restores the original piece exactly. */
  lemma RotateWithKickProps(s: GameState)
    requires Inv(s)
    ensures Inv(RotateWithKickSpec(s))
    ensures RotateWithKickSpec(s) == s.(current := RotateWithKickSpec(s).current)
    ensures s.current.Some? ==>
      var p := s.current.value;
      var p' := RotateWithKickSpec(s).current.value;
      || p' == p
      || (&& p' == RotatedPiece(p).(x := p'.x)
          && p.x - 1 <= p'.x <= p.x + 1
          && !Collides(p', s.board))
    ensures s.current.Some? && !Collides(RotatedPiece(s.current.value), s.board) ==>
      RotateWithKickSpec(s).current == Some(RotatedPiece(s.current.value))
  {
    if s.current.Some? {
      RotateKeepsWellFormed(s.current.value.shape);
    }
  }

  // ---------------------------------------------------------------------
  // Locking, clearing, spawning

  /** `lockPiece`'s loop: the falling piece written into the board. */
  ghost function LockSpec(s: GameState): GameState
    requires s.current.Some?
  {
    s.(board := Locked(s.board, s.current.value))
  }

  /** Line bookkeeping after n rows went: lines and score grow (the score by
      the table entry times the level before the update), then the level is
      recomputed and the timer re-armed with its period. Nothing happens when
      no row went. */
  ghost function Award(s: GameState, n: int, points: int): GameState
  {
    if n > 0 then
      var lines := s.lines + n;
      s.(lines := lines, score := s.score + points * s.level,
         level := LevelFor(lines), dropTimer := Some(DropInterval(LevelFor(lines))))
    else s
  }

  /** `clearLines` of js/game.js, with the table 0/100/300/500/800. */
  ghost function ClearLinesSpec(s: GameState): GameState
    requires FullCount(s.board) <= 4
  {
    var n := FullCount(s.board);
    Award(s.(board := Cleared(s.board)), n, LineScore(n))
  }

  /** `clearLines` of js/tetrominoes.js, with the table 0/40/100/300/1200. */
  ghost function ClearLinesClassicSpec(s: GameState): GameState
    requires FullCount(s.board) <= 4
  {
    var n := FullCount(s.board);
    Award(s.(board := Cleared(s.board)), n, ClassicLineScore(n))
  }

  /** `gameOver`, as far as the session goes. */
  function GameOverSpec(s: GameState): GameState
  {
    s.(over := true, dropTimer := None)
  }

  /** `spawnNewPiece`: the waiting piece falls, a new one (of type `drawn`, the random draw)
      waits, and the game is over if the falling piece collides at once. */
  ghost function SpawnSpec(s: GameState, drawn: PieceType): GameState
    requires s.next.Some?
  {
    var s1 := s.(current := s.next, next := Some(GetRandomPiece(drawn)));
    if Collides(s.next.value, s.board) then GameOverSpec(s1) else s1
  }

  /** Lock, clear and spawn, as `lockPiece` chains them. */
  ghost function LockAndSpawn(s: GameState, drawn: PieceType): GameState
    requires Inv(s) && Active(s)
  {
    LockedFullRows(s.board, s.current.value);
    SpawnSpec(ClearLinesSpec(LockSpec(s)), drawn)
  }

  /** What one lock does: the board becomes the locked board with its full
      rows (at most four) cleared; lines and score grow by the game.js table
      at the old level; the waiting piece falls and a new one waits; the
      game is over exactly when the new falling piece collides. The
      invariant is kept. */
  lemma LockAndSpawnProps(s: GameState, drawn: PieceType)
    requires Inv(s) && Active(s)
    ensures var t := LockAndSpawn(s, drawn);
      var locked := Locked(s.board, s.current.value);
      var n := FullCount(locked);
      && n <= 4
      && Inv(t)
      && t.board == Cleared(locked)
      && t.lines == s.lines + n
      && t.score == s.score + LineScore(n) * s.level
      && t.level == LevelFor(t.lines)
      && t.current == s.next && t.next == Some(GetRandomPiece(drawn))
      && t.paused == s.paused
      && (t.over <==> Collides(s.next.value, t.board))
  {
    var p := s.current.value;
    var locked := Locked(s.board, p);
    FitsIsInBounds(p, s.board);
    LockedFullRows(s.board, p);
    ClearedProps(locked);
    var t := LockAndSpawn(s, drawn);
    assert WellFormedPiece(GetRandomPiece(drawn));
  }

  // ---------------------------------------------------------------------
  // Falling

  /** `movePieceDown`: one row down if that fits; otherwise the piece stays
      and is locked. The flag is false exactly when a lock happened; while
      no piece falls, or the session is paused or over, it is true and
      nothing changes. */
  ghost function MoveDownSpec(s: GameState, drawn: PieceType): (GameState, bool)
    requires Inv(s)
  {
    if !Active(s) then (s, true)
    else
      var p := s.current.value;
      var down := p.(y := p.y + 1);
      if Collides(down, s.board) then (LockAndSpawn(s, drawn), false)
      else (s.(current := Some(down)), true)
  }

  /** The down move keeps the invariant; it reports false exactly when the
      step down collided, and then it has locked; otherwise it moved the
      piece one row down or, when inactive, changed nothing. */
  lemma MoveDownProps(s: GameState, drawn: PieceType)
    requires Inv(s)
    ensures Inv(MoveDownSpec(s, drawn).0)
    ensures !MoveDownSpec(s, drawn).1 <==>
      Active(s) && Collides(s.current.value.(y := s.current.value.y + 1), s.board)
    ensures !MoveDownSpec(s, drawn).1 ==> MoveDownSpec(s, drawn).0 == LockAndSpawn(s, drawn)
    ensures MoveDownSpec(s, drawn).1 && Active(s) ==>
      MoveDownSpec(s, drawn).0 == s.(current := Some(s.current.value.(y := s.current.value.y + 1)))
    ensures MoveDownSpec(s, drawn).1 && !Active(s) ==> MoveDownSpec(s, drawn).0 == s
  {
    if Active(s) {
      var p := s.current.value;
      if Collides(p.(y := p.y + 1), s.board) {
        LockAndSpawnProps(s, drawn);
      }
    }
  }

  /** `hardDrop`: the piece goes straight down to where it lands, then is
      locked, once. */
  ghost function HardDropSpec(s: GameState, drawn: PieceType): GameState
    requires Inv(s)
  {
    if !Active(s) then s
    else
      var p := s.current.value;
      DropLands(p, s.board);
      LockAndSpawn(s.(current := Some(Drop(p, s.board))), drawn)
  }

  /** A hard drop locks the piece exactly once, at the lowest row reachable
      straight down from where it was, in the same column and shape. */
  lemma HardDropProps(s: GameState, drawn: PieceType)
    requires Inv(s)
    ensures Inv(HardDropSpec(s, drawn))
    ensures !Active(s) ==> HardDropSpec(s, drawn) == s
    ensures Active(s) ==>
      var p := s.current.value;
      var landed := Drop(p, s.board);
      && landed == p.(y := landed.y) && p.y <= landed.y
      && !Collides(landed, s.board)
      && Collides(landed.(y := landed.y + 1), s.board)
      && HardDropSpec(s, drawn) == LockAndSpawn(s.(current := Some(landed)), drawn)
  {
    if Active(s) {
      var p := s.current.value;
      DropLands(p, s.board);
      LockAndSpawnProps(s.(current := Some(Drop(p, s.board))), drawn);
    }
  }

  /** A hard drop is the down move repeated until it reports a lock: one
      step that fits leaves the outcome of the drop unchanged, and a step
      that collides is the drop's lock. */
  lemma HardDropUnfolds(s: GameState, drawn: PieceType)
    requires Inv(s) && Active(s)
    ensures var (t, moved) := MoveDownSpec(s, drawn);
      && (moved ==> Inv(t) && Active(t) && t.current.value.y == s.current.value.y + 1
                    && HardDropSpec(t, drawn) == HardDropSpec(s, drawn))
      && (!moved ==> t == HardDropSpec(s, drawn))
  {
    var p := s.current.value;
    var down := p.(y := p.y + 1);
    DropLands(p, s.board);
    MoveDownProps(s, drawn);
    if !Collides(down, s.board) {
      var t := s.(current := Some(down));
      DropLands(down, s.board);
      assert Drop(p, s.board) == Drop(down, s.board);
      assert t.(current := Some(Drop(down, s.board))) == s.(current := Some(Drop(p, s.board)));
    } else {
      assert Drop(p, s.board) == p;
      assert s.(current := Some(p)) == s;
    }
  }

  /** One fall tick, as the timer's callback runs it. */
  ghost function TickSpec(s: GameState, drawn: PieceType): GameState
    requires Inv(s)
  {
    if !s.paused && !s.over then MoveDownSpec(s, drawn).0 else s
  }

  // ---------------------------------------------------------------------
  // Pause and keyboard

  /** `pauseGame`: toggle pause unless the game is over; pausing clears the
      timer, resuming re-arms it at the current level's period. */
  function PauseSpec(s: GameState): GameState
  {
    if s.over then s
    else if !s.paused then s.(paused := true, dropTimer := None)
    else s.(paused := false, dropTimer := Some(DropInterval(s.level)))
  }

  /** Pause toggles the flag unless the game is over, touches nothing but
      the flag and the timer, and keeps the invariant. */
  lemma PauseProps(s: GameState)
    requires Inv(s)
    ensures Inv(PauseSpec(s))
    ensures s.over ==> PauseSpec(s) == s
    ensures !s.over ==> PauseSpec(s).paused == !s.paused
    ensures PauseSpec(s) == s.(paused := PauseSpec(s).paused, dropTimer := PauseSpec(s).dropTimer)
    ensures PauseSpec(PauseSpec(s)) == s.(dropTimer := PauseSpec(PauseSpec(s)).dropTimer)
  {
  }

  /** While paused or over, no move, rotation, drop or tick changes
      anything. */
  lemma FrozenWhenPausedOrOver(s: GameState, drawn: PieceType)
    requires Inv(s) && (s.paused || s.over)
    ensures ShiftSpec(s, -1) == s && ShiftSpec(s, 1) == s
    ensures RotateSpec(s) == s
    ensures MoveDownSpec(s, drawn) == (s, true)
    ensures HardDropSpec(s, drawn) == s
    ensures TickSpec(s, drawn) == s
  {
  }

  /** The keydown handler: every key is dropped while paused or over;
      otherwise arrows move, rotate or step down, Space drops and P
      pauses. */
  ghost function KeyDownSpec(s: GameState, key: KeyCode, drawn: PieceType): GameState
    requires Inv(s)
  {
    if s.paused || s.over then s
    else
      match key
      case ArrowLeft => ShiftSpec(s, -1)
      case ArrowRight => ShiftSpec(s, 1)
      case ArrowDown => MoveDownSpec(s, drawn).0
      case ArrowUp => RotateSpec(s)
      case Space => HardDropSpec(s, drawn)
      case KeyP => PauseSpec(s)
      case OtherKey => s
  }

  /** Every key keeps the invariant, and once paused no key changes
      anything, P included: a pause cannot be undone from the keyboard. */
  lemma KeyDownProps(s: GameState, key: KeyCode, drawn: PieceType)
    requires Inv(s)
    ensures Inv(KeyDownSpec(s, key, drawn))
    ensures s.paused ==> KeyDownSpec(s, key, drawn) == s
  {
    if !s.paused && !s.over {
      match key
      case ArrowLeft => ShiftProps(s, -1);
      case ArrowRight => ShiftProps(s, 1);
      case ArrowDown => MoveDownProps(s, drawn);
      case ArrowUp => RotateProps(s);
      case Space => HardDropProps(s, drawn);
      case KeyP => PauseProps(s);
      case OtherKey =>
    }
  }

  /** The two clearLines copies remove the same rows and count the same
      lines; they differ only in the points a clear is worth. */
  lemma ClearLinesVariants(s: GameState)
    requires FullCount(s.board) <= 4
    ensures var n := FullCount(s.board);
      && ClearLinesSpec(s).board == Cleared(s.board)
      && ClearLinesClassicSpec(s) == ClearLinesSpec(s).(score := ClearLinesClassicSpec(s).score)
      && ClearLinesSpec(s).score == s.score + LineScore(n) * s.level
      && ClearLinesClassicSpec(s).score == s.score + ClassicLineScore(n) * s.level
      && ClearLinesSpec(s).lines == s.lines + n
      && (n > 0 ==> ClearLinesSpec(s).level == LevelFor(s.lines + n))
  {
  }
}
