/**
  The two computer opponents of tictactoebot/ai.py.

  Both keep the position they were built with (`self.board`) and share
  it with the caller: the constructor stores the caller's array, not a
  copy. Element i - 1 of the array is cell i.
 */
module Ai {
  import opened Position
  import opened Minimax

  /** RandomAI: an empty cell picked at random. */
  class RandomAI {
    const board: array<int>

    constructor (board: array<int>)
      requires board.Length == 9
      ensures this.board == board
    {
      this.board := board;
    }

    /**
      move: some entry of _get_empty_indexes. random.choice raises on an
      empty list, so the position must have an empty cell; which one is
      chosen, and with what probability, is left open.
     */
    method Move() returns (cell: int)
      requires board.Length == 9 && !CheckDraw(board[..])
      ensures cell in EmptyIndexes(board[..])
      ensures 1 <= cell <= 9 && board[cell - 1] == Empty
    {
      var b: Board := board[..];
      var empty := EmptyIndexes(b);
      CheckDrawIffNoEmptyIndexes(b);
      assert empty[0] in empty;
      cell :| cell in empty;
      assert b[cell - 1] == board[cell - 1];
    }
  }

  /** MiniMaxAI: exhaustive minimax search on the shared position. */
  class MiniMaxAI {
    const board: array<int>

    constructor (board: array<int>)
      requires board.Length == 9
      ensures this.board == board
    {
      this.board := board;
    }

    /**
      move: try every empty cell in order with the Mover's mark, score
      it, and keep the first strictly better one. None when no cell is
      empty. The position is the same afterwards.
     */
    method Move() returns (bestMove: Option<int>)
      requires board.Length == 9
      modifies board
      ensures board[..] == old(board[..])
      ensures bestMove == ChosenMove(old(board[..]))
    {
      ghost var b: Board := board[..];
      var bestScore := NegInf;
      bestMove := None;
      var i := 1;
      while i <= 9
        invariant 1 <= i <= 10
        invariant board[..] == b
        invariant ScanState(b, i, bestScore, bestMove)
        invariant ChooseFrom(b, i, bestScore, bestMove) == ChosenMove(b)
      {
        if board[i - 1] == Empty {
          var score := SetBoard(i, Mover);
          if score > bestScore {
            bestScore := score;
            bestMove := Some(i);
          }
        }
        i := i + 1;
      }
    }

    /**
      The `with self.set_board(index, value)` block of move: save cell
      `index`, overwrite it with `value`, score the position at depth 0
      with the minimizing side to play, and put the saved value back.
     */
    method SetBoard(index: int, value: int) returns (score: int)
      requires board.Length == 9 && 1 <= index <= 9
      modifies board
      ensures board[..] == old(board[..])
      ensures score == MinimaxValue(old(board[..])[index - 1 := value], false)
    {
      var originalValue := board[index - 1];
      board[index - 1] := value;
      score := Minimax(0, false);
      board[index - 1] := originalValue;
      assert board[..] == old(board[..]);
    }

    /**
      minimax: the terminal checks, then every empty cell is marked for
      the side to play, searched one layer deeper and cleared again. The
      board parameter of the source is always self.board, so the method
      works on the field. The result does not depend on `depth`, and the
      position is the same afterwards.
     */
    method Minimax(depth: int, isMaximizing: bool) returns (score: int)
      requires board.Length == 9
      modifies board
      decreases EmptyCount(board[..])
      ensures board[..] == old(board[..])
      ensures score == MinimaxValue(old(board[..]), isMaximizing)
    {
      if CheckIsWin(board[..], Mover) {
        return 1;
      } else if CheckIsWin(board[..], Opponent) {
        return -1;
      } else if CheckDraw(board[..]) {
        return 0;
      }
      ghost var b: Board := board[..];
      assert Open(b);
      if isMaximizing {
        var bestScore := NegInf;
        var i := 0;
        assert BestReply(b, true, 0, bestScore) == MinimaxValue(b, true);
        while i < 9
          invariant 0 <= i <= 9
          invariant board[..] == b
          invariant bestScore <= 1
          invariant BestReply(b, true, i, bestScore) == MinimaxValue(b, true)
        {
          if board[i] == Empty {
            board[i] := Mover;
            assert board[..] == Reply(b, true, i);
            FillRemovesEmpty(b, i, Mover);
            var s := Minimax(depth + 1, false);
            board[i] := Empty;
            assert board[..] == b;
            BestReplyStep(b, true, i, bestScore, s);
            if s > bestScore {
              bestScore := s;
            }
          }
          i := i + 1;
        }
        score := bestScore;
      } else {
        var bestScore := PosInf;
        var i := 0;
        assert BestReply(b, false, 0, bestScore) == MinimaxValue(b, false);
        while i < 9
          invariant 0 <= i <= 9
          invariant board[..] == b
          invariant bestScore >= -1
          invariant BestReply(b, false, i, bestScore) == MinimaxValue(b, false)
        {
          if board[i] == Empty {
            board[i] := Opponent;
            assert board[..] == Reply(b, false, i);
            FillRemovesEmpty(b, i, Opponent);
            var s := Minimax(depth + 1, true);
            board[i] := Empty;
            assert board[..] == b;
            BestReplyStep(b, false, i, bestScore, s);
            if s < bestScore {
              bestScore := s;
            }
          }
          i := i + 1;
        }
        score := bestScore;
      }
    }
  }
}
