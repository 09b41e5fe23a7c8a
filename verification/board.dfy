/**
  The server's game board: nine squares numbered row * 3 + column, each
  empty or holding a player's mark, with the occupancy, three-in-a-row and
  full-board tests the server runs after every move.
*/
module GameBoard {
  import opened Wrappers

  /** What one square holds. The server stores these as "", "X" and "O". */
  datatype Cell = Empty | X | O

  type Board = b: seq<Cell> | |b| == 9
    witness [Empty, Empty, Empty, Empty, Empty, Empty, Empty, Empty, Empty]

  /** The text the server keeps in a square. */
  function Text(c: Cell): string {
    match c
    case Empty => ""
    case X => "X"
    case O => "O"
  }

  lemma TextInjective(c: Cell, d: Cell)
    requires Text(c) == Text(d)
    ensures c == d
  {
  }

  /** The board the server starts with: every square holds the empty string. */
  function NewBoard(): (b: Board)
    ensures forall i :: 0 <= i < 9 ==> b[i] == Empty
  {
    seq(9, _ => Empty)
  }

  /**
    Whether a square holds one of the two marks. A location outside 0..8 has
    no square: the array access throws, which is `None` here.
  */
  function IsOccupied(b: Board, location: int): (r: Option<bool>)
    ensures r.None? <==> !(0 <= location < 9)
    ensures r.Some? ==> (r.value <==> b[location] != Empty)
  {
    if 0 <= location < 9 then Some(b[location] == X || b[location] == O) else None
  }

  /** Squares i, j and k hold the same mark, and it is not the empty one. */
  predicate Same3(b: Board, i: nat, j: nat, k: nat)
    requires i < 9 && j < 9 && k < 9
  {
    b[i] != Empty && b[i] == b[j] && b[i] == b[k]
  }

  /** The server's winner test: three rows, three columns, two diagonals. */
  predicate HasWinner(b: Board) {
    || Same3(b, 0, 1, 2)
    || Same3(b, 3, 4, 5)
    || Same3(b, 6, 7, 8)
    || Same3(b, 0, 3, 6)
    || Same3(b, 1, 4, 7)
    || Same3(b, 2, 5, 8)
    || Same3(b, 0, 4, 8)
    || Same3(b, 2, 4, 6)
  }

  /** The square in row r, column c. */
  function At(b: Board, r: int, c: int): Cell
    requires 0 <= r < 3 && 0 <= c < 3
  {
    b[3 * r + c]
  }

  /** Row r is filled with m. */
  ghost predicate RowOf(b: Board, r: int, m: Cell)
    requires 0 <= r < 3
  {
    forall c :: 0 <= c < 3 ==> At(b, r, c) == m
  }

  /** Column c is filled with m. */
  ghost predicate ColumnOf(b: Board, c: int, m: Cell)
    requires 0 <= c < 3
  {
    forall r :: 0 <= r < 3 ==> At(b, r, c) == m
  }

  /** The square in row i of the anti-diagonal, where row + column == 2. */
  function AntiAt(b: Board, i: int): Cell
    requires 0 <= i < 3
  {
    At(b, i, 2 - i)
  }

  /**
    Reference definition of a win, in terms of rows and columns: some row,
    some column, the main diagonal (row == column) or the anti-diagonal
    (row + column == 2) is filled with m.
  */
  ghost predicate Owns(b: Board, m: Cell) {
    || (exists r :: 0 <= r < 3 && RowOf(b, r, m))
    || (exists c :: 0 <= c < 3 && ColumnOf(b, c, m))
    || (forall i :: 0 <= i < 3 ==> At(b, i, i) == m)
    || (forall i :: 0 <= i < 3 ==> AntiAt(b, i) == m)
  }

  /** The eight explicit tests find a winner exactly when one mark owns a line. */
  lemma {:induction false} HasWinnerIff(b: Board)
    ensures HasWinner(b) <==> Owns(b, X) || Owns(b, O)
  {
    if HasWinner(b) {
      WinnerOwns(b);
    } else {
      NoLineOwned(b, X);
      NoLineOwned(b, O);
    }
  }

  lemma WinnerOwns(b: Board)
    requires HasWinner(b)
    ensures Owns(b, X) || Owns(b, O)
  {
    if Same3(b, 0, 1, 2) {
      assert RowOf(b, 0, b[0]);
    } else if Same3(b, 3, 4, 5) {
      assert RowOf(b, 1, b[3]);
    } else if Same3(b, 6, 7, 8) {
      assert RowOf(b, 2, b[6]);
    } else if Same3(b, 0, 3, 6) {
      assert ColumnOf(b, 0, b[0]);
    } else if Same3(b, 1, 4, 7) {
      assert ColumnOf(b, 1, b[1]);
    } else if Same3(b, 2, 5, 8) {
      assert ColumnOf(b, 2, b[2]);
    } else if Same3(b, 0, 4, 8) {
      assert forall i :: 0 <= i < 3 ==> At(b, i, i) == b[0];
    } else {
      assert forall i :: 0 <= i < 3 ==> AntiAt(b, i) == b[2];
    }
  }

  lemma NoLineOwned(b: Board, m: Cell)
    requires m != Empty && !HasWinner(b)
    ensures !Owns(b, m)
  {
    forall r | 0 <= r < 3
      ensures !RowOf(b, r, m)
    {
      assert !(At(b, r, 0) == m && At(b, r, 1) == m && At(b, r, 2) == m);
    }
    forall c | 0 <= c < 3
      ensures !ColumnOf(b, c, m)
    {
      assert !(At(b, 0, c) == m && At(b, 1, c) == m && At(b, 2, c) == m);
    }
    assert !(At(b, 0, 0) == m && At(b, 1, 1) == m && At(b, 2, 2) == m);
    assert !(AntiAt(b, 0) == m && AntiAt(b, 1) == m && AntiAt(b, 2) == m);
  }

  /** No square is empty. */
  predicate IsFull(b: Board) {
    forall i :: 0 <= i < 9 ==> b[i] != Empty
  }

  /** The server's scan for an empty square, stopping at the first one found. */
  method BoardFilledUp(b: Board) returns (full: bool)
    ensures full <==> IsFull(b)
  {
    var i := 0;
    while i < |b|
      invariant 0 <= i <= |b|
      invariant forall j :: 0 <= j < i ==> b[j] != Empty
    {
      if b[i] == Empty {
        return false;
      }
      i := i + 1;
    }
    return true;
  }

  /** The game is over once someone has three in a row or no square is left. */
  predicate IsGameOver(b: Board) {
    HasWinner(b) || IsFull(b)
  }

  /** The number of squares holding a mark. */
  function Marked(s: seq<Cell>): (n: nat)
    ensures n <= |s|
  {
    if |s| == 0 then 0 else Marked(s[..|s| - 1]) + (if s[|s| - 1] == Empty then 0 else 1)
  }

  /** The number of squares holding m. */
  function Count(s: seq<Cell>, m: Cell): (n: nat)
    ensures n <= |s|
  {
    if |s| == 0 then 0 else Count(s[..|s| - 1], m) + (if s[|s| - 1] == m then 1 else 0)
  }

  /** Every square is marked exactly when nine squares are marked. */
  lemma {:induction false} MarkedAll(s: seq<Cell>)
    ensures Marked(s) == |s| <==> forall i :: 0 <= i < |s| ==> s[i] != Empty
  {
    if |s| > 0 {
      var p := s[..|s| - 1];
      MarkedAll(p);
      assert forall i :: 0 <= i < |p| ==> p[i] == s[i];
    }
  }

  /** The marked squares are those holding X plus those holding O. */
  lemma {:induction false} MarkedSplits(s: seq<Cell>)
    ensures Marked(s) == Count(s, X) + Count(s, O)
  {
    if |s| > 0 {
      MarkedSplits(s[..|s| - 1]);
    }
  }

  /** Writing into square i changes the count of m only through the old and new contents of i. */
  lemma {:induction false} CountUpdate(s: seq<Cell>, i: int, v: Cell, m: Cell)
    requires 0 <= i < |s|
    ensures Count(s[i := v], m) + (if s[i] == m then 1 else 0) == Count(s, m) + (if v == m then 1 else 0)
  {
    var n := |s| - 1;
    assert s[i := v][..n] == if i == n then s[..n] else s[..n][i := v];
    if i < n {
      CountUpdate(s[..n], i, v, m);
    }
  }

  /** Writing into square i changes the number of marks only through the old and new contents of i. */
  lemma {:induction false} MarkedUpdate(s: seq<Cell>, i: int, v: Cell)
    requires 0 <= i < |s|
    ensures Marked(s[i := v]) + (if s[i] == Empty then 0 else 1) == Marked(s) + (if v == Empty then 0 else 1)
  {
    var n := |s| - 1;
    assert s[i := v][..n] == if i == n then s[..n] else s[..n][i := v];
    if i < n {
      MarkedUpdate(s[..n], i, v);
    }
  }

  /** A new board has no marks and no winner, so the game is not over. */
  lemma NewBoardOpen()
    ensures Marked(NewBoard()) == 0
    ensures !IsGameOver(NewBoard())
  {
    var b := NewBoard();
    MarkedAll(b);
    ZeroMarked(b);
  }

  lemma {:induction false} ZeroMarked(s: seq<Cell>)
    requires forall i :: 0 <= i < |s| ==> s[i] == Empty
    ensures Marked(s) == 0
  {
    if |s| > 0 {
      ZeroMarked(s[..|s| - 1]);
    }
  }

  /** The game is over exactly when a mark owns a line or all nine squares are marked. */
  lemma GameOverIff(b: Board)
    ensures IsGameOver(b) <==> Owns(b, X) || Owns(b, O) || Marked(b) == 9
  {
    HasWinnerIff(b);
    MarkedAll(b);
  }
}
