/**
 * The piece catalog of js/tetrominoes.js: the seven shapes and their colours,
 * the spawn position of a new piece, the clockwise rotation transform and the
 * colour lookup. The board's cell type lives here too, since pieces and the
 * board share the piece-type keys.
 */
module Tetrominoes {
  import opened Wrappers

  /** The board is 20 rows of 10 columns; row 0 is the top. */
  const Width: int := 10
  const Height: int := 20

  /** The seven catalog keys. */
  datatype PieceType = I | J | L | O | S | T | Z

  /** A square matrix of 0/1 entries; a non-zero entry is an occupied cell. */
  type Shape = seq<seq<int>>

  /** A falling piece: its key, its current shape, the board column and row of
      the shape's top-left corner, and its colour (an opaque string). */
  datatype Piece = Piece(kind: PieceType, shape: Shape, x: int, y: int, color: string)

  /** A board cell holds 0 or the key of the piece that was locked there. */
  datatype Cell = Empty | Filled(kind: PieceType)

  type Board = seq<seq<Cell>>

  function CatalogShape(t: PieceType): Shape
  {
    match t
    case I => [[0, 0, 0, 0], [1, 1, 1, 1], [0, 0, 0, 0], [0, 0, 0, 0]]
    case J => [[1, 0, 0], [1, 1, 1], [0, 0, 0]]
    case L => [[0, 0, 1], [1, 1, 1], [0, 0, 0]]
    case O => [[1, 1], [1, 1]]
    case S => [[0, 1, 1], [1, 1, 0], [0, 0, 0]]
    case T => [[0, 1, 0], [1, 1, 1], [0, 0, 0]]
    case Z => [[1, 1, 0], [0, 1, 1], [0, 0, 0]]
  }

  function CatalogColor(t: PieceType): string
  {
    match t
    case I => "#00f0f0"
    case J => "#0000f0"
    case L => "#f0a000"
    case O => "#f0f000"
    case S => "#00f000"
    case T => "#a000f0"
    case Z => "#f00000"
  }

  /** The property name under which a type is stored in the catalog. */
  function Key(t: PieceType): string
  {
    match t
    case I => "I"
    case J => "J"
    case L => "L"
    case O => "O"
    case S => "S"
    case T => "T"
    case Z => "Z"
  }

  /** Catalog lookup by property name: the type whose key is `key`, if any. */
  function KindOfKey(key: string): (r: Option<PieceType>)
    ensures r.Some? ==> Key(r.value) == key
    ensures r.None? ==> forall t :: Key(t) != key
  {
    if key == "I" then Some(I)
    else if key == "J" then Some(J)
    else if key == "L" then Some(L)
    else if key == "O" then Some(O)
    else if key == "S" then Some(S)
    else if key == "T" then Some(T)
    else if key == "Z" then Some(Z)
    else None
  }

  /** The colour to paint a key with: the catalog colour, or white for any
      value that is not one of the seven keys. */
  function GetColor(key: string): (color: string)
    ensures forall t :: key == Key(t) ==> color == CatalogColor(t)
    ensures (forall t :: key != Key(t)) ==> color == "#ffffff"
  {
    match KindOfKey(key)
    case Some(t) => if CatalogColor(t) != "" then CatalogColor(t) else "#ffffff"
    case None => "#ffffff"
  }

  ghost predicate IsSquare(s: Shape)
  {
    forall r :: 0 <= r < |s| ==> |s[r]| == |s|
  }

  ghost predicate IsBits(s: Shape)
  {
    forall r, c :: 0 <= r < |s| && 0 <= c < |s[r]| ==> s[r][c] == 0 || s[r][c] == 1
  }

  /** The (row, column) positions of the occupied cells of a shape. */
  ghost function Occupied(s: Shape): set<(int, int)>
  {
    set r, c | 0 <= r < |s| && 0 <= c < |s[r]| && s[r][c] != 0 :: (r, c)
  }

  /** What every catalog shape, and every rotation of one, satisfies. */
  ghost predicate WellFormedShape(s: Shape)
  {
    IsSquare(s) && 2 <= |s| <= 4 && IsBits(s) && |Occupied(s)| == 4
  }

  /** A piece that came out of the catalog: a well-formed shape and the
      colour of its type. */
  ghost predicate WellFormedPiece(p: Piece)
  {
    WellFormedShape(p.shape) && p.color == CatalogColor(p.kind)
  }

  /** The occupied cells of each catalog shape, listed. */
  function CatalogCells(t: PieceType): set<(int, int)>
  {
    match t
    case I => {(1, 0), (1, 1), (1, 2), (1, 3)}
    case J => {(0, 0), (1, 0), (1, 1), (1, 2)}
    case L => {(0, 2), (1, 0), (1, 1), (1, 2)}
    case O => {(0, 0), (0, 1), (1, 0), (1, 1)}
    case S => {(0, 1), (0, 2), (1, 0), (1, 1)}
    case T => {(0, 1), (1, 0), (1, 1), (1, 2)}
    case Z => {(0, 0), (0, 1), (1, 1), (1, 2)}
  }

  lemma CatalogOccupied(t: PieceType)
    ensures Occupied(CatalogShape(t)) == CatalogCells(t)
  {
    var s := CatalogShape(t);
    forall p | p in Occupied(s) ensures p in CatalogCells(t) {
      var r, c :| 0 <= r < |s| && 0 <= c < |s[r]| && s[r][c] != 0 && p == (r, c);
      assert r == 0 || r == 1 || r == 2 || r == 3;
      assert c == 0 || c == 1 || c == 2 || c == 3;
    }
    forall p | p in CatalogCells(t) ensures p in Occupied(s) {
      assert s[p.0][p.1] != 0;
    }
  }

  /** Every catalog shape is an N-by-N 0/1 matrix, N in {2, 3, 4}, with
      exactly four occupied cells. */
  lemma CatalogWellFormed(t: PieceType)
    ensures WellFormedShape(CatalogShape(t))
  {
    var s := CatalogShape(t);
    CatalogOccupied(t);
    assert |CatalogCells(t)| == 4 by {
      match t
      case I => assert (1, 0) != (1, 1);
      case J => assert (0, 0) != (1, 0);
      case L => assert (0, 2) != (1, 0);
      case O => assert (0, 0) != (0, 1);
      case S => assert (0, 1) != (0, 2);
      case T => assert (0, 1) != (1, 0);
      case Z => assert (0, 0) != (0, 1);
    }
    forall r, c | 0 <= r < |s| && 0 <= c < |s[r]| ensures s[r][c] == 0 || s[r][c] == 1 {
      assert r == 0 || r == 1 || r == 2 || r == 3;
      assert c == 0 || c == 1 || c == 2 || c == 3;
    }
  }

  /** The piece `getRandomPiece` returns for type `t`: the catalog shape and
      colour, on the top row, centred on the board's middle column. */
  function GetRandomPiece(t: PieceType): (p: Piece)
    ensures p.kind == t && p.shape == CatalogShape(t) && p.color == CatalogColor(t)
    ensures p.y == 0 && p.x + |p.shape| / 2 == Width / 2
    ensures WellFormedPiece(p)
  {
    CatalogWellFormed(t);
    var shape := CatalogShape(t);
    Piece(t, shape, Width / 2 - |shape[0]| / 2, 0, CatalogColor(t))
  }

  /** The clockwise rotation of an N-by-N matrix: entry (i, j) of the result
      is entry (N-1-j, i) of the input. */
  function RotateShape(s: Shape): (r: Shape)
    requires IsSquare(s)
    ensures |r| == |s| && IsSquare(r)
  {
    seq(|s|, i requires 0 <= i < |s| => seq(|s|, j requires 0 <= j < |s| => s[|s| - 1 - j][i]))
  }

  /** The transform at the head of the catalog file: the same piece with its
      shape rotated clockwise. */
  function RotatedPiece(p: Piece): (q: Piece)
    requires IsSquare(p.shape)
    ensures q.kind == p.kind && q.x == p.x && q.y == p.y && q.color == p.color
    ensures q.shape == RotateShape(p.shape)
  {
    p.(shape := RotateShape(p.shape))
  }

  /** Builds the rotated matrix row by row, as both rotation loops of the
      source do. */
  method BuildRotated(shape: Shape) returns (rotated: Shape)
    requires IsSquare(shape)
    ensures |rotated| == |shape| && IsSquare(rotated)
    ensures forall i, j :: 0 <= i < |shape| && 0 <= j < |shape| ==> rotated[i][j] == shape[|shape| - 1 - j][i]
    ensures rotated == RotateShape(shape)
  {
    var size := |shape|;
    rotated := [];
    var i := 0;
    while i < size
      invariant 0 <= i <= size
      invariant |rotated| == i
      invariant forall k :: 0 <= k < i ==> rotated[k] == RotateShape(shape)[k]
    {
      var row: seq<int> := [];
      var j := 0;
      while j < size
        invariant 0 <= j <= size
        invariant |row| == j
        invariant forall k :: 0 <= k < j ==> row[k] == shape[size - 1 - k][i]
      {
        row := row + [shape[size - 1 - j][i]];
        j := j + 1;
      }
      rotated := rotated + [row];
      i := i + 1;
    }
  }

  /** Four clockwise rotations give back the original matrix. */
  lemma RotateFourTimes(s: Shape)
    requires IsSquare(s)
    ensures RotateShape(RotateShape(RotateShape(RotateShape(s)))) == s
  {
    var n := |s|;
    var r1 := RotateShape(s);
    var r2 := RotateShape(r1);
    var r3 := RotateShape(r2);
    var r4 := RotateShape(r3);
    forall i | 0 <= i < n ensures r4[i] == s[i] {
      forall j | 0 <= j < n ensures r4[i][j] == s[i][j] {
        calc {
          r4[i][j];
          r3[n - 1 - j][i];
          r2[n - 1 - i][n - 1 - j];
          r1[j][n - 1 - i];
          s[i][j];
        }
      }
    }
  }

  /** Where a cell of an N-by-N matrix goes under a clockwise rotation. */
  function Turn(p: (int, int), n: int): (int, int)
  {
    (p.1, n - 1 - p.0)
  }

  lemma RotateOccupied(s: Shape)
    requires IsSquare(s)
    ensures Occupied(RotateShape(s)) == set p | p in Occupied(s) :: Turn(p, |s|)
  {
    var n := |s|;
    var rs := RotateShape(s);
    forall q | q in Occupied(rs) ensures q in set p | p in Occupied(s) :: Turn(p, n) {
      var i, j :| 0 <= i < n && 0 <= j < n && rs[i][j] != 0 && q == (i, j);
      assert s[n - 1 - j][i] != 0;
      assert (n - 1 - j, i) in Occupied(s);
      assert Turn((n - 1 - j, i), n) == q;
    }
    forall p | p in Occupied(s) ensures Turn(p, n) in Occupied(rs) {
      var r, c :| 0 <= r < n && 0 <= c < n && s[r][c] != 0 && p == (r, c);
      assert rs[c][n - 1 - r] == s[r][c];
    }
  }

  /** Turning is one-to-one, so it keeps the number of cells. */
  lemma {:induction false} TurnKeepsCount(cells: set<(int, int)>, n: int)
    ensures |set p | p in cells :: Turn(p, n)| == |cells|
    decreases |cells|
  {
    if cells != {} {
      var p :| p in cells;
      var rest := cells - {p};
      TurnKeepsCount(rest, n);
      var image := set q | q in cells :: Turn(q, n);
      var restImage := set q | q in rest :: Turn(q, n);
      assert image == restImage + {Turn(p, n)};
      assert Turn(p, n) !in restImage;
    }
  }

  /** Rotation keeps the size, the 0/1 entries and the number of occupied
      cells, so a rotated catalog shape is still well formed. */
  lemma RotateKeepsWellFormed(s: Shape)
    requires WellFormedShape(s)
    ensures WellFormedShape(RotateShape(s))
    ensures |Occupied(RotateShape(s))| == |Occupied(s)|
  {
    RotateOccupied(s);
    TurnKeepsCount(Occupied(s), |s|);
  }
}
