/**
 * Collision detection of js/tetrominoes.js: a piece collides when one of its
 * occupied cells leaves the board's columns, falls below the last row, or
 * lands on a filled cell. Cells above the top row are checked against the
 * columns only.
 */
module Collision {
  import opened Tetrominoes
  import opened Grid

  /** Board position (col, row) is out of bounds, or on the board and filled. */
  predicate Blocked(board: Board, col: int, row: int)
  {
    col < 0 || col >= Width || row >= Height
    || (0 <= row < |board| && col < |board[row]| && board[row][col].Filled?)
  }

  ghost predicate Collides(p: Piece, board: Board)
  {
    exists r, c :: 0 <= r < |p.shape| && 0 <= c < |p.shape[r]| && p.shape[r][c] != 0
      && Blocked(board, p.x + c, p.y + r)
  }

  /** Every occupied cell is inside the board's columns and above its floor. */
  ghost predicate InBounds(p: Piece)
  {
    forall r, c :: 0 <= r < |p.shape| && 0 <= c < |p.shape[r]| && p.shape[r][c] != 0 ==>
                     0 <= p.x + c < Width && p.y + r < Height
  }

  /** The scan of `checkCollision`: shape rows top to bottom, columns left to
      right, answering true at the first occupied cell that is blocked. */
  method CheckCollision(piece: Piece, board: Board) returns (hit: bool)
    ensures hit <==> Collides(piece, board)
  {
    var shape := piece.shape;
    var y := 0;
    while y < |shape|
      invariant 0 <= y <= |shape|
      invariant forall r, c :: 0 <= r < y && 0 <= c < |shape[r]| && shape[r][c] != 0 ==>
                                 !Blocked(board, piece.x + c, piece.y + r)
    {
      var x := 0;
      while x < |shape[y]|
        invariant 0 <= x <= |shape[y]|
        invariant forall r, c :: 0 <= r < y && 0 <= c < |shape[r]| && shape[r][c] != 0 ==>
                                   !Blocked(board, piece.x + c, piece.y + r)
        invariant forall c :: 0 <= c < x && shape[y][c] != 0 ==> !Blocked(board, piece.x + c, piece.y + y)
      {
        if shape[y][x] != 0 {
          var boardX := piece.x + x;
          var boardY := piece.y + y;
          if boardX < 0 || boardX >= Width || boardY >= Height {
            return true;
          }
          if 0 <= boardY < |board| && boardX < |board[boardY]| && board[boardY][boardX].Filled? {
            return true;
          }
        }
        x := x + 1;
      }
      y := y + 1;
    }
    return false;
  }

  /** `isValidRotation`: the rotated piece fits. */
  method IsValidRotation(piece: Piece, board: Board) returns (ok: bool)
    requires IsSquare(piece.shape)
    ensures ok <==> !Collides(RotatedPiece(piece), board)
  {
    var rotated := BuildRotated(piece.shape);
    var hit := CheckCollision(piece.(shape := rotated), board);
    ok := !hit;
  }

  /** A piece collides whenever one of its occupied cells is left of column
      0, right of column 9 or below row 19, whatever the board holds. */
  lemma OutOfBoundsCollides(p: Piece, board: Board, r: int, c: int)
    requires 0 <= r < |p.shape| && 0 <= c < |p.shape[r]| && p.shape[r][c] != 0
    requires p.x + c < 0 || p.x + c >= Width || p.y + r >= Height
    ensures Collides(p, board)
  {
    assert Blocked(board, p.x + c, p.y + r);
  }

  /** On a 20-by-10 board, an in-bounds piece collides exactly when one of its
      occupied cells on the board meets a filled cell; its cells above the
      top row are never compared with the board. */
  lemma CollidesIffOverlap(p: Piece, board: Board)
    requires WellFormed(board) && InBounds(p)
    ensures Collides(p, board) <==>
      exists r, c :: 0 <= r < |p.shape| && 0 <= c < |p.shape[r]| && p.shape[r][c] != 0
        && 0 <= p.y + r && board[p.y + r][p.x + c].Filled?
  {
  }

  /** A piece whose occupied cells are all above the top row and inside the
      columns never collides, whatever the board holds. */
  lemma AboveBoardNeverCollides(p: Piece, board: Board)
    requires forall r, c :: 0 <= r < |p.shape| && 0 <= c < |p.shape[r]| && p.shape[r][c] != 0 ==>
                              0 <= p.x + c < Width && p.y + r < 0
    ensures !Collides(p, board)
  {
  }

  /** A shape with no occupied cell never collides. */
  lemma BlankShapeNeverCollides(p: Piece, board: Board)
    requires Occupied(p.shape) == {}
    ensures !Collides(p, board)
  {
    forall r, c | 0 <= r < |p.shape| && 0 <= c < |p.shape[r]| ensures p.shape[r][c] == 0 {
      assert (r, c) !in Occupied(p.shape);
    }
  }

  /** A piece that does not collide lies inside the board's columns and above
      its floor. */
  lemma FitsIsInBounds(p: Piece, board: Board)
    requires !Collides(p, board)
    ensures InBounds(p)
  {
  }

  /** A piece with an occupied cell that does not collide has its top row
      above the floor. */
  lemma FitsIsAboveFloor(p: Piece, board: Board)
    requires !Collides(p, board) && Occupied(p.shape) != {}
    ensures p.y < Height
  {
    var cell :| cell in Occupied(p.shape);
    var r, c :| 0 <= r < |p.shape| && 0 <= c < |p.shape[r]| && p.shape[r][c] != 0 && cell == (r, c);
    assert !Blocked(board, p.x + c, p.y + r);
  }

  /** Every type spawns without colliding on the empty 20-by-10 board. */
  lemma SpawnFits(t: PieceType)
    ensures !Collides(GetRandomPiece(t), EmptyBoard())
  {
    var p := GetRandomPiece(t);
    var b := EmptyBoard();
    forall r, c | 0 <= r < |p.shape| && 0 <= c < |p.shape[r]| && p.shape[r][c] != 0
      ensures !Blocked(b, p.x + c, p.y + r)
    {
      assert 0 <= p.y + r < Height;
      assert b[p.y + r][p.x + c] == Empty;
    }
  }

  /** Where a hard drop leaves the piece: moved down one row at a time while
      the next row down fits. */
  ghost function Drop(p: Piece, board: Board): (q: Piece)
    requires !Collides(p, board) && Occupied(p.shape) != {}
    decreases Height - p.y
  {
    FitsIsAboveFloor(p, board);
    var down := p.(y := p.y + 1);
    if Collides(down, board) then p else Drop(down, board)
  }

  /** A hard drop keeps the column and the shape, ends on a position that
      fits with the next row down blocked, and passes only through positions
      that fit: it stops at the lowest position reachable straight down. */
  lemma {:induction false} DropLands(p: Piece, board: Board)
    requires !Collides(p, board) && Occupied(p.shape) != {}
    ensures Drop(p, board).x == p.x && Drop(p, board).shape == p.shape
    ensures Drop(p, board) == p.(y := Drop(p, board).y)
    ensures p.y <= Drop(p, board).y
    ensures !Collides(Drop(p, board), board)
    ensures Collides(Drop(p, board).(y := Drop(p, board).y + 1), board)
    ensures forall k :: p.y <= k <= Drop(p, board).y ==> !Collides(p.(y := k), board)
    decreases Height - p.y
  {
    FitsIsAboveFloor(p, board);
    var down := p.(y := p.y + 1);
    if !Collides(down, board) {
      DropLands(down, board);
      forall k | p.y <= k <= Drop(p, board).y ensures !Collides(p.(y := k), board) {
        if k > p.y {
          assert p.(y := k) == down.(y := k);
        }
      }
    }
  }
}
