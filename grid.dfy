/**
 * The 20-by-10 board of js/game.js: its empty state, locking a piece into it
 * and removing full rows, as functions on board values. The session methods
 * that change the board in place are proved against these.
 */
module Grid {
  import opened Tetrominoes

  type Row = seq<Cell>

  function EmptyRow(): (row: Row)
    ensures |row| == Width && forall i :: 0 <= i < |row| ==> row[i] == Empty
  {
    seq(Width, _ => Empty)
  }

  function EmptyRows(k: nat): (rows: Board)
    ensures |rows| == k && forall i :: 0 <= i < k ==> rows[i] == EmptyRow()
  {
    seq(k, _ => EmptyRow())
  }

  /** The board `initBoard` creates: 20 empty rows of 10 cells. */
  function EmptyBoard(): Board
  {
    EmptyRows(Height)
  }

  ghost predicate WellFormed(b: Board)
  {
    |b| == Height && forall r :: 0 <= r < |b| ==> |b[r]| == Width
  }

  /** A row is full when none of its cells is 0. */
  predicate IsFull(row: Row)
  {
    forall i :: 0 <= i < |row| ==> row[i].Filled?
  }

  ghost predicate NoFullRow(b: Board)
  {
    forall r :: 0 <= r < |b| ==> !IsFull(b[r])
  }

  lemma EmptyRowNotFull()
    ensures !IsFull(EmptyRow())
  {
    assert EmptyRow()[0] == Empty;
  }

  lemma EmptyBoardWellFormed()
    ensures WellFormed(EmptyBoard()) && NoFullRow(EmptyBoard())
  {
    EmptyRowNotFull();
  }

  // ---------------------------------------------------------------------
  // Removing full rows

  /** The rows that are not full, in their original order. */
  ghost function KeepNonFull(b: Board): Board
  {
    if b == [] then [] else (if IsFull(b[0]) then [] else [b[0]]) + KeepNonFull(b[1..])
  }

  /** How many rows are full. */
  ghost function FullCount(b: Board): nat
  {
    if b == [] then 0 else (if IsFull(b[0]) then 1 else 0) + FullCount(b[1..])
  }

  /** The board after every full row has been taken out and as many empty
      rows have been put on top. */
  ghost function Cleared(b: Board): Board
  {
    EmptyRows(FullCount(b)) + KeepNonFull(b)
  }

  /** Taking the row just below `n` empty rows and `front` out of the board
      and putting an empty row on top gives one more empty row on top. */
  lemma SpliceRow(n: nat, front: Board, row: Row, rest: Board)
    ensures var b := EmptyRows(n) + front + [row] + rest;
      var y := n + |front|;
      [EmptyRow()] + (b[..y] + b[y + 1..]) == EmptyRows(n + 1) + front + rest
  {
    var b := EmptyRows(n) + front + [row] + rest;
    var y := n + |front|;
    assert b[..y] == EmptyRows(n) + front;
    assert b[y + 1..] == rest;
    assert [EmptyRow()] + EmptyRows(n) == EmptyRows(n + 1);
  }

  /** One more row at the head of the scanned suffix: a full one is counted
      and dropped, a non-full one is kept. */
  lemma KeepNonFullCons(b: Board, k: nat)
    requires 0 < k <= |b|
    ensures IsFull(b[k - 1]) ==>
      KeepNonFull(b[k - 1..]) == KeepNonFull(b[k..]) && FullCount(b[k - 1..]) == FullCount(b[k..]) + 1
    ensures !IsFull(b[k - 1]) ==>
      KeepNonFull(b[k - 1..]) == [b[k - 1]] + KeepNonFull(b[k..]) && FullCount(b[k - 1..]) == FullCount(b[k..])
  {
    assert b[k - 1..][1..] == b[k..];
  }

  /** The board part-way through the bottom-up sweep of `b`: `n` empty rows
      on top of the unscanned rows `b[..m]` and the survivors of the scanned
      rows `b[m..]`. */
  ghost function SweepState(b: Board, m: nat, n: nat): Board
    requires m <= |b|
  {
    EmptyRows(n) + b[..m] + KeepNonFull(b[m..])
  }

  /** Before the sweep the board is untouched; after it the board is the
      cleared board. */
  lemma SweepEnds(b: Board)
    ensures SweepState(b, |b|, 0) == b && FullCount(b[|b|..]) == 0
    ensures SweepState(b, 0, FullCount(b)) == Cleared(b)
  {
    assert b[|b|..] == [] && b[..|b|] == b;
    assert b[..0] == [] && b[0..] == b;
  }

  /** While the sweep runs the board keeps its height. */
  lemma SweepHeight(b: Board, m: nat)
    requires m <= |b|
    ensures |SweepState(b, m, FullCount(b[m..]))| == |b|
  {
    KeepNonFullProps(b[m..]);
  }

  /** Once every original row is scanned, the rows the index revisits are
      the empty rows put on top. */
  lemma SweepTopRow(b: Board, n: nat, y: int)
    requires 0 <= y < n
    ensures y < |SweepState(b, 0, n)| && SweepState(b, 0, n)[y] == EmptyRow()
  {
  }

  /** One step of the sweep: the row looked at next is `b[m - 1]`; removing
      it when full and putting an empty row on top, or leaving the board as
      it is otherwise, is the sweep state with one more scanned row. */
  lemma SweepStep(b: Board, m: nat, n: nat)
    requires 0 < m <= |b|
    ensures var cur := SweepState(b, m, n);
      var y := n + m - 1;
      && y < |cur| && cur[y] == b[m - 1]
      && (IsFull(b[m - 1]) ==>
            && [EmptyRow()] + (cur[..y] + cur[y + 1..]) == SweepState(b, m - 1, n + 1)
            && FullCount(b[m - 1..]) == FullCount(b[m..]) + 1)
      && (!IsFull(b[m - 1]) ==>
            && cur == SweepState(b, m - 1, n)
            && FullCount(b[m - 1..]) == FullCount(b[m..]))
  {
    var front, row, rest := b[..m - 1], b[m - 1], KeepNonFull(b[m..]);
    assert b[..m] == front + [row];
    var cur := EmptyRows(n) + b[..m] + rest;
    assert cur == EmptyRows(n) + front + [row] + rest;
    assert cur[n + |front|] == row;
    KeepNonFullCons(b, m);
    if IsFull(row) {
      SpliceRow(n, front, row, rest);
    }
  }

  /** Each full row is replaced by exactly one empty row, the surviving rows
      are rows of the input and none of them is full. */
  lemma {:induction false} KeepNonFullProps(b: Board)
    ensures |KeepNonFull(b)| + FullCount(b) == |b|
    ensures NoFullRow(KeepNonFull(b))
    ensures forall r :: r in KeepNonFull(b) ==> r in b
  {
    if b != [] {
      KeepNonFullProps(b[1..]);
      assert b == [b[0]] + b[1..];
    }
  }

  /** Filtering distributes over concatenation: the surviving rows of a board
      keep their relative order. */
  lemma {:induction false} KeepNonFullAppend(a: Board, b: Board)
    ensures KeepNonFull(a + b) == KeepNonFull(a) + KeepNonFull(b)
    ensures FullCount(a + b) == FullCount(a) + FullCount(b)
  {
    if a == [] {
      assert a + b == b;
    } else {
      assert (a + b)[1..] == a[1..] + b;
      KeepNonFullAppend(a[1..], b);
    }
  }

  /** After clearing, the board is still 20 by 10, holds no full row, and
      begins with one empty row per removed row. */
  lemma ClearedProps(b: Board)
    requires WellFormed(b)
    ensures WellFormed(Cleared(b)) && NoFullRow(Cleared(b))
    ensures FullCount(b) <= Height
    ensures forall r :: 0 <= r < FullCount(b) ==> Cleared(b)[r] == EmptyRow()
  {
    KeepNonFullProps(b);
    EmptyRowNotFull();
    var c := Cleared(b);
    var k := FullCount(b);
    forall r | 0 <= r < |c| ensures |c[r]| == Width && !IsFull(c[r]) {
      if r >= k {
        assert c[r] == KeepNonFull(b)[r - k];
        assert c[r] in KeepNonFull(b);
      }
    }
  }

  /** A board without a full row is left exactly as it was. */
  lemma {:induction false} ClearedNoFullRow(b: Board)
    requires NoFullRow(b)
    ensures FullCount(b) == 0 && Cleared(b) == b
  {
    if b != [] {
      assert !IsFull(b[0]);
      ClearedNoFullRow(b[1..]);
      assert b == [b[0]] + b[1..];
    }
  }

  /** If every full row lies in rows [lo, hi), at most hi - lo rows are full. */
  lemma {:induction false} FullCountWindow(b: Board, lo: int, hi: int)
    requires 0 <= lo <= hi
    requires forall r :: 0 <= r < |b| && IsFull(b[r]) ==> lo <= r < hi
    ensures FullCount(b) <= hi - lo
  {
    if b != [] {
      assert forall r :: 0 <= r < |b[1..]| ==> b[1..][r] == b[r + 1];
      if lo >= 1 {
        FullCountWindow(b[1..], lo - 1, hi - 1);
      } else if hi >= 1 {
        FullCountWindow(b[1..], 0, hi - 1);
      } else {
        FullCountWindow(b[1..], 0, 0);
      }
    }
  }

  // ---------------------------------------------------------------------
  // Locking a piece

  /** Board cell (col, row) lies under an occupied cell of the piece. Rows of
      the board are never negative, so cells of the piece above the board
      cover nothing. */
  ghost predicate Covers(p: Piece, col: int, row: int)
  {
    0 <= row - p.y < |p.shape| && 0 <= col - p.x < |p.shape[row - p.y]| && p.shape[row - p.y][col - p.x] != 0
  }

  /** Covers, restricted to the shape cells a row-major scan has passed
      before row `lr`, column `lc`. */
  ghost predicate CoveredBefore(p: Piece, col: int, row: int, lr: int, lc: int)
  {
    Covers(p, col, row) && (row - p.y < lr || (row - p.y == lr && col - p.x < lc))
  }

  /** The board after the lock loop has written the piece's key into every
      covered cell that the scan has passed. */
  ghost function LockedUpTo(b: Board, p: Piece, lr: int, lc: int): Board
  {
    seq(|b|, i requires 0 <= i < |b| =>
      seq(|b[i]|, j requires 0 <= j < |b[i]| =>
        if CoveredBefore(p, j, i, lr, lc) then Filled(p.kind) else b[i][j]))
  }

  /** The board after the piece has been locked into it. */
  ghost function Locked(b: Board, p: Piece): Board
  {
    LockedUpTo(b, p, |p.shape|, 0)
  }

  /** Locking writes the piece's key into exactly the covered cells and
      leaves every other cell and the board's dimensions as they were. */
  lemma LockedCells(b: Board, p: Piece)
    ensures |Locked(b, p)| == |b|
    ensures forall i :: 0 <= i < |b| ==> |Locked(b, p)[i]| == |b[i]|
    ensures forall i, j :: 0 <= i < |b| && 0 <= j < |b[i]| ==>
      Locked(b, p)[i][j] == if Covers(p, j, i) then Filled(p.kind) else b[i][j]
  {
  }

  /** Two boards with the same dimensions and the same cells are equal. */
  lemma BoardExt(a: Board, b: Board)
    requires |a| == |b|
    requires forall i :: 0 <= i < |a| ==> |a[i]| == |b[i]|
    requires forall i, j :: 0 <= i < |a| && 0 <= j < |a[i]| ==> a[i][j] == b[i][j]
    ensures a == b
  {
    forall i | 0 <= i < |a| ensures a[i] == b[i] {
    }
  }

  /** One step of the inner lock loop: visiting shape cell (lr, lc). */
  lemma LockStep(b: Board, p: Piece, lr: int, lc: int)
    requires WellFormed(b)
    requires 0 <= lr < |p.shape| && 0 <= lc < |p.shape[lr]|
    requires p.shape[lr][lc] != 0 && p.y + lr >= 0 ==> 0 <= p.x + lc < Width && p.y + lr < Height
    ensures LockedUpTo(b, p, lr, lc + 1) ==
      if p.shape[lr][lc] != 0 && p.y + lr >= 0 then
        var cur := LockedUpTo(b, p, lr, lc);
        cur[p.y + lr := cur[p.y + lr][p.x + lc := Filled(p.kind)]]
      else LockedUpTo(b, p, lr, lc)
  {
    var cur := LockedUpTo(b, p, lr, lc);
    var nxt := LockedUpTo(b, p, lr, lc + 1);
    if p.shape[lr][lc] != 0 && p.y + lr >= 0 {
      var row, col := p.y + lr, p.x + lc;
      var upd := cur[row := cur[row][col := Filled(p.kind)]];
      forall i, j | 0 <= i < |nxt| && 0 <= j < |nxt[i]| ensures nxt[i][j] == upd[i][j] {
        if i == row && j == col {
          assert CoveredBefore(p, j, i, lr, lc + 1);
        }
      }
      BoardExt(nxt, upd);
    } else {
      forall i, j | 0 <= i < |nxt| && 0 <= j < |nxt[i]| ensures nxt[i][j] == cur[i][j] {
        if CoveredBefore(p, j, i, lr, lc + 1) {
          assert CoveredBefore(p, j, i, lr, lc) || (i - p.y == lr && j - p.x == lc);
        }
      }
      BoardExt(nxt, cur);
    }
  }

  /** The end of a shape row: passing row lr entirely is the same as
      starting row lr + 1. */
  lemma LockRowDone(b: Board, p: Piece, lr: int)
    requires 0 <= lr < |p.shape|
    ensures LockedUpTo(b, p, lr, |p.shape[lr]|) == LockedUpTo(b, p, lr + 1, 0)
  {
    var u := LockedUpTo(b, p, lr, |p.shape[lr]|);
    var v := LockedUpTo(b, p, lr + 1, 0);
    forall i, j | 0 <= i < |u| && 0 <= j < |u[i]| ensures u[i][j] == v[i][j] {
      assert CoveredBefore(p, j, i, lr, |p.shape[lr]|) == CoveredBefore(p, j, i, lr + 1, 0);
    }
    BoardExt(u, v);
  }

  /** Before any cell is visited nothing is written. */
  lemma LockStart(b: Board, p: Piece)
    ensures LockedUpTo(b, p, 0, 0) == b
  {
    BoardExt(LockedUpTo(b, p, 0, 0), b);
  }

  /** Locking a piece of at most four rows into a board without full rows
      leaves at most four full rows, so the score tables are never indexed
      past their end. */
  lemma LockedFullRows(b: Board, p: Piece)
    requires WellFormed(b) && NoFullRow(b)
    requires |p.shape| <= 4
    ensures WellFormed(Locked(b, p))
    ensures FullCount(Locked(b, p)) <= 4
  {
    var lb := Locked(b, p);
    LockedCells(b, p);
    var lo := if p.y < 0 then 0 else p.y;
    var hi := if p.y + |p.shape| < lo then lo else p.y + |p.shape|;
    forall r | 0 <= r < |lb| && !(lo <= r < hi) ensures !IsFull(lb[r]) {
      assert lb[r] == b[r];
    }
    FullCountWindow(lb, lo, hi);
  }
}
