/**
  A position as the computer opponent sees it (tictactoebot/ai.py).

  The source keeps a dictionary from cell number 1..9 (row-major) to
  1 (the side to move), -1 (its opponent) or 0 (empty). Here a position
  is a sequence of nine integers: element i - 1 holds cell i, so
  dictionary order and index order agree.
 */
module Position {

  datatype Option<T> = None | Some(value: T)

  type Board = b: seq<int> | |b| == 9 witness [0, 0, 0, 0, 0, 0, 0, 0, 0]

  const Mover := 1
  const Opponent := -1
  const Empty := 0

  /** The source's WINNING_COMBINATIONS: 3 rows, 3 columns and 2 diagonals, by cell number. */
  const WinningCombinations: set<(int, int, int)> :=
    {(1, 2, 3), (4, 5, 6), (7, 8, 9),
     (1, 4, 7), (2, 5, 8), (3, 6, 9),
     (1, 5, 9), (3, 5, 7)}

  /** Cells i, j and k (numbered from 1) all hold `symbol`. */
  predicate Held(b: Board, i: int, j: int, k: int, symbol: int)
    requires 1 <= i <= 9 && 1 <= j <= 9 && 1 <= k <= 9
  {
    b[i - 1] == symbol && b[j - 1] == symbol && b[k - 1] == symbol
  }

  /** check_is_win: some winning combination is held entirely by `symbol`. */
  predicate CheckIsWin(b: Board, symbol: int) {
    || Held(b, 1, 2, 3, symbol) || Held(b, 4, 5, 6, symbol) || Held(b, 7, 8, 9, symbol)
    || Held(b, 1, 4, 7, symbol) || Held(b, 2, 5, 8, symbol) || Held(b, 3, 6, 9, symbol)
    || Held(b, 1, 5, 9, symbol) || Held(b, 3, 5, 7, symbol)
  }

  /** check_draw: no cell is empty. It does not look for a completed line. */
  predicate CheckDraw(b: Board) {
    forall i :: 0 <= i < 9 ==> b[i] != Empty
  }

  /** The cell in row `row` and column `col`, both counted from 0. */
  function Cell(b: Board, row: int, col: int): int
    requires 0 <= row < 3 && 0 <= col < 3
  {
    b[3 * row + col]
  }

  ghost predicate RowFull(b: Board, row: int, symbol: int) {
    0 <= row < 3 && forall col :: 0 <= col < 3 ==> Cell(b, row, col) == symbol
  }

  ghost predicate ColumnFull(b: Board, col: int, symbol: int) {
    0 <= col < 3 && forall row :: 0 <= row < 3 ==> Cell(b, row, col) == symbol
  }

  /** The diagonal from the top left (row == col) or the one from the top right (row + col == 2). */
  ghost predicate DiagonalFull(b: Board, anti: bool, symbol: int) {
    forall row, col :: 0 <= row < 3 && 0 <= col < 3 && (if anti then row + col == 2 else row == col)
                       ==> Cell(b, row, col) == symbol
  }

  /** Reference reading of a win: a full row, a full column or a full diagonal. */
  ghost predicate ThreeInARow(b: Board, symbol: int) {
    || (exists row :: 0 <= row < 3 && RowFull(b, row, symbol))
    || (exists col :: 0 <= col < 3 && ColumnFull(b, col, symbol))
    || DiagonalFull(b, false, symbol)
    || DiagonalFull(b, true, symbol)
  }

  /** check_is_win holds exactly when one of the eight listed combinations is all `symbol`. */
  lemma CheckIsWinMatchesCombinations(b: Board, symbol: int)
    ensures CheckIsWin(b, symbol) <==>
            exists c :: c in WinningCombinations && 1 <= c.0 <= 9 && 1 <= c.1 <= 9 && 1 <= c.2 <= 9
                        && Held(b, c.0, c.1, c.2, symbol)
  {
  }

  /** The eight combinations are exactly the rows, the columns and the two diagonals. */
  lemma CheckIsWinIffThreeInARow(b: Board, symbol: int)
    ensures CheckIsWin(b, symbol) <==> ThreeInARow(b, symbol)
  {
    if CheckIsWin(b, symbol) {
      if Held(b, 1, 2, 3, symbol) { LineFull(b, 0, 0, 0, 1, symbol); assert RowFull(b, 0, symbol); }
      else if Held(b, 4, 5, 6, symbol) { LineFull(b, 1, 0, 0, 1, symbol); assert RowFull(b, 1, symbol); }
      else if Held(b, 7, 8, 9, symbol) { LineFull(b, 2, 0, 0, 1, symbol); assert RowFull(b, 2, symbol); }
      else if Held(b, 1, 4, 7, symbol) { LineFull(b, 0, 0, 1, 0, symbol); assert ColumnFull(b, 0, symbol); }
      else if Held(b, 2, 5, 8, symbol) { LineFull(b, 0, 1, 1, 0, symbol); assert ColumnFull(b, 1, symbol); }
      else if Held(b, 3, 6, 9, symbol) { LineFull(b, 0, 2, 1, 0, symbol); assert ColumnFull(b, 2, symbol); }
      else if Held(b, 1, 5, 9, symbol) { LineFull(b, 0, 0, 1, 1, symbol); }
      else { LineFull(b, 0, 2, 1, -1, symbol); }
    }
    if ThreeInARow(b, symbol) {
      if exists row :: 0 <= row < 3 && RowFull(b, row, symbol) {
        var row :| 0 <= row < 3 && RowFull(b, row, symbol);
        assert Cell(b, row, 0) == symbol && Cell(b, row, 1) == symbol && Cell(b, row, 2) == symbol;
      } else if exists col :: 0 <= col < 3 && ColumnFull(b, col, symbol) {
        var col :| 0 <= col < 3 && ColumnFull(b, col, symbol);
        assert Cell(b, 0, col) == symbol && Cell(b, 1, col) == symbol && Cell(b, 2, col) == symbol;
      } else if DiagonalFull(b, false, symbol) {
        assert Cell(b, 0, 0) == symbol && Cell(b, 1, 1) == symbol && Cell(b, 2, 2) == symbol;
      } else {
        assert Cell(b, 0, 2) == symbol && Cell(b, 1, 1) == symbol && Cell(b, 2, 0) == symbol;
      }
    }
  }

  /**
    The three cells (row + t * dr, col + t * dc), t = 0, 1, 2, hold `symbol`;
    those are the only cells of that row, column or diagonal.
   */
  lemma LineFull(b: Board, row: int, col: int, dr: int, dc: int, symbol: int)
    requires 0 <= row < 3 && 0 <= col < 3 && 0 <= row + 2 * dr < 3 && 0 <= col + 2 * dc < 3
    requires Cell(b, row, col) == symbol && Cell(b, row + dr, col + dc) == symbol
    requires Cell(b, row + 2 * dr, col + 2 * dc) == symbol
    ensures dr == 0 && dc == 1 && col == 0 ==> RowFull(b, row, symbol)
    ensures dr == 1 && dc == 0 && row == 0 ==> ColumnFull(b, col, symbol)
    ensures dr == 1 && dc == 1 && row == 0 && col == 0 ==> DiagonalFull(b, false, symbol)
    ensures dr == 1 && dc == -1 && row == 0 && col == 2 ==> DiagonalFull(b, true, symbol)
  {
  }

  /**
    _get_empty_indexes from cell i + 1 onwards: the numbers of the empty
    cells after the first i, in increasing order.
   */
  function EmptyIndexesFrom(b: Board, i: nat): (r: seq<int>)
    requires i <= 9
    decreases 9 - i
    ensures forall k :: k in r <==> i < k <= 9 && b[k - 1] == Empty
    ensures forall p, q :: 0 <= p < q < |r| ==> r[p] < r[q]
  {
    if i == 9 then []
    else
      var rest := EmptyIndexesFrom(b, i + 1);
      assert forall q :: 0 <= q < |rest| ==> rest[q] in rest;
      (if b[i] == Empty then [i + 1] else []) + rest
  }

  /** _get_empty_indexes: the numbers of all empty cells, in dictionary order. */
  function EmptyIndexes(b: Board): (r: seq<int>)
    ensures forall k :: k in r <==> 1 <= k <= 9 && b[k - 1] == Empty
    ensures forall p, q :: 0 <= p < q < |r| ==> r[p] < r[q]
  {
    EmptyIndexesFrom(b, 0)
  }

  /** A full board in the sense of check_draw is one with no empty index to choose from. */
  lemma CheckDrawIffNoEmptyIndexes(b: Board)
    ensures CheckDraw(b) <==> EmptyIndexes(b) == []
  {
  }

  /** The number of empty cells from index i on: the measure the search shrinks by one per layer. */
  function EmptyCountFrom(b: Board, i: nat): nat
    requires i <= 9
    decreases 9 - i
  {
    if i == 9 then 0 else (if b[i] == Empty then 1 else 0) + EmptyCountFrom(b, i + 1)
  }

  function EmptyCount(b: Board): nat {
    EmptyCountFrom(b, 0)
  }

  /** Writing a mark into an empty cell leaves exactly one empty cell fewer. */
  lemma FillRemovesEmpty(b: Board, i: int, v: int)
    requires 0 <= i < 9 && b[i] == Empty && v != Empty
    ensures EmptyCount(b[i := v]) == EmptyCount(b) - 1
  {
    FillRemovesEmptyFrom(b, i, v, 0);
  }

  lemma {:induction false} FillRemovesEmptyFrom(b: Board, i: int, v: int, j: nat)
    requires 0 <= i < 9 && b[i] == Empty && v != Empty && j <= 9
    decreases 9 - j
    ensures EmptyCountFrom(b[i := v], j) == EmptyCountFrom(b, j) - (if j <= i then 1 else 0)
  {
    if j < 9 {
      FillRemovesEmptyFrom(b, i, v, j + 1);
    }
  }
}
