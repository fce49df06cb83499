/** The cells of a Tic-Tac-Toe board and the 3x3 grid they form.
    The game keeps its board as a mutable array of nine cells in row-major
    order (row i, column j at 3 * i + j); the rules and the search are
    specified over its contents, the grid value `board[..]`. */
module Board {

  /** A cell holds the player's mark, the computer's mark, or nothing.
      `Empty` also stands for the "no winner" answer of the winner scan. */
  datatype Cell = Empty | X | O

  datatype Option<T> = None | Some(value: T)

  /** The nine cells of a 3x3 board, row by row: row i, column j is at 3 * i + j. */
  type Grid = g: seq<Cell> | |g| == 9
    witness [Empty, Empty, Empty, Empty, Empty, Empty, Empty, Empty, Empty]

  /** Position of row i, column j in a grid. */
  function Index(i: int, j: int): (k: nat)
    requires 0 <= i < 3 && 0 <= j < 3
    ensures k < 9 && k / 3 == i && k % 3 == j
  {
    3 * i + j
  }

  /** The number of empty cells: what every ply of the search uses up. */
  function Empties(g: Grid): nat
  {
    multiset(g)[Empty]
  }

  /** Every cell holds a mark. */
  predicate Full(g: Grid)
  {
    forall k :: 0 <= k < 9 ==> g[k] != Empty
  }

  /** A board is full exactly when it has no empty cell left. */
  lemma FullIffNoEmpties(g: Grid)
    ensures Full(g) <==> Empties(g) == 0
  {
    if !Full(g) {
      var k :| 0 <= k < 9 && g[k] == Empty;
      assert Empty in g;
    }
  }

  /** Marking an empty cell leaves exactly one empty cell fewer, and clearing
      it again gives back the grid that was there before. */
  lemma {:induction false} MarkEmptyCell(g: Grid, k: nat, c: Cell)
    requires k < 9 && g[k] == Empty && c != Empty
    ensures Empties(g[k := c]) == Empties(g) - 1
    ensures g[k := c][k := Empty] == g
  {
    assert g == g[..k] + [Empty] + g[k + 1..];
    assert g[k := c] == g[..k] + [c] + g[k + 1..];
  }
}
