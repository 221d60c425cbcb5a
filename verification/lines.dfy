/**
 * The eight winning lines of a 3x3 board, as the index table both engines
 * use (game.mjs and tictactoe-ui.mjs), and an independent geometric reading
 * of the same lines: three rows, three columns and two diagonals.
 */
module Lines {
  import opened Boards

  /** The winning index triples, in the order of the source's table. */
  const WinningTriples: seq<(nat, nat, nat)> :=
    [(0, 1, 2), (3, 4, 5), (6, 7, 8),
     (0, 3, 6), (1, 4, 7), (2, 5, 8),
     (0, 4, 8), (2, 4, 6)]

  /** All three cells of triple `t` hold `x`. */
  predicate Completes<T(==)>(s: seq<T>, x: T, t: (nat, nat, nat)) {
    t.0 < |s| && t.1 < |s| && t.2 < |s| && s[t.0] == x && s[t.1] == x && s[t.2] == x
  }

  /** Some winning triple is completed by `x` (`some(... every(...))`). */
  predicate Wins<T(==)>(s: seq<T>, x: T) {
    exists k :: 0 <= k < |WinningTriples| && Completes(s, x, WinningTriples[k])
  }

  /** The row-major index of the cell in row `row` and column `col`. */
  function Index(row: nat, col: nat): (i: nat)
    requires row < BoardSize && col < BoardSize
    ensures i < TotalCells
  {
    row * BoardSize + col
  }

  /** The column that row `i` meets on the anti-diagonal. */
  function Mirror(i: nat): (j: nat)
    requires i < BoardSize
    ensures j < BoardSize
  {
    BoardSize - 1 - i
  }

  predicate RowFilled<T(==)>(s: seq<T>, x: T, row: nat)
    requires |s| == TotalCells && row < BoardSize
  {
    forall col :: 0 <= col < BoardSize ==> s[Index(row, col)] == x
  }

  predicate ColumnFilled<T(==)>(s: seq<T>, x: T, col: nat)
    requires |s| == TotalCells && col < BoardSize
  {
    forall row :: 0 <= row < BoardSize ==> s[Index(row, col)] == x
  }

  predicate DiagonalFilled<T(==)>(s: seq<T>, x: T)
    requires |s| == TotalCells
  {
    forall i :: 0 <= i < BoardSize ==> s[Index(i, i)] == x
  }

  predicate AntiDiagonalFilled<T(==)>(s: seq<T>, x: T)
    requires |s| == TotalCells
  {
    forall i :: 0 <= i < BoardSize ==> s[Index(i, Mirror(i))] == x
  }

  /** Three in a row, read geometrically: a full row, a full column or a full diagonal. */
  predicate ThreeInARow<T(==)>(s: seq<T>, x: T)
    requires |s| == TotalCells
  {
    || (exists row :: 0 <= row < BoardSize && RowFilled(s, x, row))
    || (exists col :: 0 <= col < BoardSize && ColumnFilled(s, x, col))
    || DiagonalFilled(s, x)
    || AntiDiagonalFilled(s, x)
  }

  /** The index table lists exactly the rows, columns and diagonals of the board. */
  lemma WinsIffThreeInARow<T>(s: seq<T>, x: T)
    requires |s| == TotalCells
    ensures Wins(s, x) <==> ThreeInARow(s, x)
  {
    assert Index(0, 0) == 0 && Index(0, 1) == 1 && Index(0, 2) == 2;
    assert Index(1, 0) == 3 && Index(1, 1) == 4 && Index(1, 2) == 5;
    assert Index(2, 0) == 6 && Index(2, 1) == 7 && Index(2, 2) == 8;
    assert Mirror(0) == 2 && Mirror(1) == 1 && Mirror(2) == 0;
    if Wins(s, x) {
      var k :| 0 <= k < |WinningTriples| && Completes(s, x, WinningTriples[k]);
      if k < 3 {
        assert RowFilled(s, x, k);
      } else if k < 6 {
        assert ColumnFilled(s, x, k - 3);
      } else if k == 6 {
        assert DiagonalFilled(s, x);
      } else {
        assert AntiDiagonalFilled(s, x);
      }
    }
    if ThreeInARow(s, x) {
      if row :| 0 <= row < BoardSize && RowFilled(s, x, row) {
        assert Completes(s, x, WinningTriples[row]);
      } else if col :| 0 <= col < BoardSize && ColumnFilled(s, x, col) {
        assert Completes(s, x, WinningTriples[3 + col]);
      } else if DiagonalFilled(s, x) {
        assert Completes(s, x, WinningTriples[6]);
      } else {
        assert Completes(s, x, WinningTriples[7]);
      }
    }
  }

  /**
   * Placing `x` on the three cells of one winning triple and `y != x` on all
   * other cells wins for `x` and not for any value other than `x` and `y`;
   * in particular not for the other player's marker when `y` is Blank.
   */
  lemma LoneTripleWins<T>(s: seq<T>, x: T, y: T, z: T, k: nat)
    requires |s| == TotalCells && k < |WinningTriples| && z != x && z != y
    requires forall i :: 0 <= i < TotalCells ==>
      s[i] == (if i == WinningTriples[k].0 || i == WinningTriples[k].1 || i == WinningTriples[k].2 then x else y)
    ensures Wins(s, x)
    ensures !Wins(s, z)
  {
    assert Completes(s, x, WinningTriples[k]);
  }

  /** Writing `m` into one cell creates no line for any value other than `m`. */
  lemma WinsAfterOtherMark<T>(s: seq<T>, i: nat, m: T, x: T)
    requires i < |s| && x != m
    ensures Wins(s[i := m], x) ==> Wins(s, x)
  {
    if Wins(s[i := m], x) {
      var k :| 0 <= k < |WinningTriples| && Completes(s[i := m], x, WinningTriples[k]);
      assert Completes(s, x, WinningTriples[k]);
    }
  }
}
