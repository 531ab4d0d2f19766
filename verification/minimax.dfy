/**
  The value MiniMaxAI.minimax computes, and the cell MiniMaxAI.move picks,
  as functions of the position (tictactoebot/ai.py:48-143).

  The source starts each search layer from float("-inf") or float("inf");
  every score it can compare against is -1, 0 or 1, so the integers
  NegInf = -2 and PosInf = 2 order the same way.
 */
module Minimax {
  import opened Position

  const NegInf := -2
  const PosInf := 2

  /** The position after the side to play at this layer marks cell index i (0-based). */
  function Reply(b: Board, isMaximizing: bool, i: int): Board
    requires 0 <= i < 9
  {
    b[i := if isMaximizing then Mover else Opponent]
  }

  /** `x` is at least as good as `y` for the side choosing at this layer. */
  predicate AtLeastAsGood(isMaximizing: bool, x: int, y: int) {
    if isMaximizing then x >= y else x <= y
  }

  /** Neither side has a line and the board is not full: minimax searches on. */
  predicate Open(b: Board) {
    !CheckIsWin(b, Mover) && !CheckIsWin(b, Opponent) && !CheckDraw(b)
  }

  /**
    minimax(board, depth, is_maximizing): terminal checks first, in the
    source's order (a Mover line, then an Opponent line, then a full
    board), otherwise the best reply. `depth` is not an argument: the
    source only passes it down.
   */
  function MinimaxValue(b: Board, isMaximizing: bool): (score: int)
    decreases EmptyCount(b), 1, 0
    ensures -1 <= score <= 1
  {
    if CheckIsWin(b, Mover) then 1
    else if CheckIsWin(b, Opponent) then -1
    else if CheckDraw(b) then 0
    else BestReply(b, isMaximizing, 0, if isMaximizing then NegInf else PosInf)
  }

  /**
    The search loop of minimax from cell index i on, with `best` the
    best score found so far; a score replaces `best` only when strictly
    better for the side choosing.
   */
  function BestReply(b: Board, isMaximizing: bool, i: nat, best: int): (score: int)
    requires i <= 9
    requires if isMaximizing then best <= 1 else best >= -1
    decreases EmptyCount(b), 0, 9 - i
    ensures AtLeastAsGood(isMaximizing, score, best)
    ensures (-1 <= best <= 1 || exists j :: i <= j < 9 && b[j] == Empty) ==> -1 <= score <= 1
  {
    if i == 9 then best
    else if b[i] != Empty then BestReply(b, isMaximizing, i + 1, best)
    else
      FillRemovesEmpty(b, i, if isMaximizing then Mover else Opponent);
      var s := MinimaxValue(Reply(b, isMaximizing, i), !isMaximizing);
      var best' := if AtLeastAsGood(isMaximizing, best, s) then best else s;
      BestReply(b, isMaximizing, i + 1, best')
  }

  /** One step of the search loop: an empty cell scoring `s` against `best`. */
  lemma BestReplyStep(b: Board, isMaximizing: bool, i: nat, best: int, s: int)
    requires i < 9 && b[i] == Empty
    requires if isMaximizing then best <= 1 else best >= -1
    requires s == MinimaxValue(Reply(b, isMaximizing, i), !isMaximizing)
    ensures BestReply(b, isMaximizing, i, best) ==
            BestReply(b, isMaximizing, i + 1, if AtLeastAsGood(isMaximizing, best, s) then best else s)
  {
  }

  lemma {:induction false} BestReplyCoversEachMove(b: Board, isMaximizing: bool, i: nat, best: int, j: int)
    requires i <= j < 9 && b[j] == Empty
    requires if isMaximizing then best <= 1 else best >= -1
    decreases 9 - i
    ensures AtLeastAsGood(isMaximizing, BestReply(b, isMaximizing, i, best),
                          MinimaxValue(Reply(b, isMaximizing, j), !isMaximizing))
  {
    if b[i] != Empty {
      BestReplyCoversEachMove(b, isMaximizing, i + 1, best, j);
    } else if i < j {
      var s := MinimaxValue(Reply(b, isMaximizing, i), !isMaximizing);
      var best' := if AtLeastAsGood(isMaximizing, best, s) then best else s;
      BestReplyCoversEachMove(b, isMaximizing, i + 1, best', j);
    }
  }

  lemma {:induction false} BestReplyIsAttained(b: Board, isMaximizing: bool, i: nat, best: int)
    requires i <= 9
    requires if isMaximizing then best <= 1 else best >= -1
    decreases 9 - i
    ensures var score := BestReply(b, isMaximizing, i, best);
            score == best ||
            exists j :: i <= j < 9 && b[j] == Empty && score == MinimaxValue(Reply(b, isMaximizing, j), !isMaximizing)
  {
    if i < 9 {
      if b[i] != Empty {
        BestReplyIsAttained(b, isMaximizing, i + 1, best);
      } else {
        var s := MinimaxValue(Reply(b, isMaximizing, i), !isMaximizing);
        var best' := if AtLeastAsGood(isMaximizing, best, s) then best else s;
        BestReplyIsAttained(b, isMaximizing, i + 1, best');
      }
    }
  }

  /**
    Outside the terminal cases, minimax is the textbook game value: the
    maximum (minimum) over every empty cell of the value after marking it,
    and that extreme is reached by some empty cell.
   */
  lemma MinimaxIsBestReply(b: Board, isMaximizing: bool)
    requires Open(b)
    ensures forall j :: 0 <= j < 9 && b[j] == Empty ==>
              AtLeastAsGood(isMaximizing, MinimaxValue(b, isMaximizing), MinimaxValue(Reply(b, isMaximizing, j), !isMaximizing))
    ensures exists j :: 0 <= j < 9 && b[j] == Empty &&
              MinimaxValue(b, isMaximizing) == MinimaxValue(Reply(b, isMaximizing, j), !isMaximizing)
  {
    var init := if isMaximizing then NegInf else PosInf;
    forall j | 0 <= j < 9 && b[j] == Empty
      ensures AtLeastAsGood(isMaximizing, MinimaxValue(b, isMaximizing), MinimaxValue(Reply(b, isMaximizing, j), !isMaximizing))
    {
      BestReplyCoversEachMove(b, isMaximizing, 0, init, j);
    }
    BestReplyIsAttained(b, isMaximizing, 0, init);
  }

  /** The side to play scores 1 when some empty cell completes a Mover line at once. */
  lemma ImmediateWin(b: Board, j: int)
    requires Open(b) && 0 <= j < 9 && b[j] == Empty
    requires CheckIsWin(Reply(b, true, j), Mover)
    ensures MinimaxValue(b, true) == 1
  {
    MinimaxIsBestReply(b, true);
  }

  /** The minimizing side scores -1 when it can complete a line at once without the Mover having one. */
  lemma ImmediateLoss(b: Board, j: int)
    requires Open(b) && 0 <= j < 9 && b[j] == Empty
    requires CheckIsWin(Reply(b, false, j), Opponent)
    ensures MinimaxValue(b, false) == -1
  {
    MinimaxIsBestReply(b, false);
  }

  /** The checks run in order: a Mover line scores 1 even when the board is full or the Opponent also has a line. */
  lemma WinIsCheckedBeforeDraw(b: Board, isMaximizing: bool)
    requires CheckIsWin(b, Mover)
    ensures MinimaxValue(b, isMaximizing) == 1
  {
  }

  /** An Opponent line without a Mover line scores -1, even on a full board: it is checked before the draw. */
  lemma OpponentLineBeforeDraw(b: Board, isMaximizing: bool)
    requires CheckIsWin(b, Opponent) && !CheckIsWin(b, Mover)
    ensures MinimaxValue(b, isMaximizing) == -1
  {
  }

  /** A position at least `v` for the minimizing side: every reply is at least `v`. */
  lemma MinAtLeast(b: Board, v: int)
    requires Open(b)
    requires forall j :: 0 <= j < 9 && b[j] == Empty ==> MinimaxValue(Reply(b, false, j), true) >= v
    ensures MinimaxValue(b, false) >= v
  {
    MinimaxIsBestReply(b, false);
  }

  /** A position at least `v` for the maximizing side: some reply is at least `v`. */
  lemma MaxAtLeast(b: Board, j: int, v: int)
    requires Open(b) && 0 <= j < 9 && b[j] == Empty
    requires MinimaxValue(Reply(b, true, j), false) >= v
    ensures MinimaxValue(b, true) >= v
  {
    MinimaxIsBestReply(b, true);
  }

  /** The score move gives cell `cell` (1..9): minimax after marking it, minimizing side to play. */
  function Score(b: Board, cell: int): int
    requires 1 <= cell <= 9
  {
    MinimaxValue(b[cell - 1 := Mover], false)
  }

  /**
    The score move gives a cell is a game value, and a cell that completes a
    Mover line scores 1 at once, the same as any later forced win.
   */
  lemma ScoreOfCompletedLine(b: Board, cell: int)
    requires 1 <= cell <= 9
    ensures -1 <= Score(b, cell) <= 1
    ensures CheckIsWin(b[cell - 1 := Mover], Mover) ==> Score(b, cell) == 1
  {
  }

  /**
    `k` is what move keeps once the cells before `upTo` are scanned: an
    empty cell whose score no scanned empty cell beats, and which every
    earlier empty cell scores strictly below.
   */
  ghost predicate FirstBest(b: Board, k: int, upTo: int) {
    && 1 <= k < upTo <= 10 && b[k - 1] == Empty
    && (forall j :: 1 <= j < upTo && b[j - 1] == Empty ==> Score(b, j) <= Score(b, k))
    && (forall j :: 1 <= j < k && b[j - 1] == Empty ==> Score(b, j) < Score(b, k))
  }

  /** The state of move's loop before cell `cell`: what it has kept so far. */
  ghost predicate ScanState(b: Board, cell: int, bestScore: int, bestMove: Option<int>) {
    && 1 <= cell <= 10
    && (bestMove.None? ==> bestScore == NegInf && forall i :: 0 <= i < cell - 1 ==> b[i] != Empty)
    && (bestMove.Some? ==> FirstBest(b, bestMove.value, cell) && bestScore == Score(b, bestMove.value))
  }

  /** The loop of move from cell `cell` on: keep a cell only when its score is strictly greater. */
  function ChooseFrom(b: Board, cell: int, bestScore: int, bestMove: Option<int>): (r: Option<int>)
    requires 1 <= cell <= 10
    requires ScanState(b, cell, bestScore, bestMove)
    decreases 10 - cell
    ensures r.None? ==> CheckDraw(b)
    ensures r.Some? ==> FirstBest(b, r.value, 10)
  {
    if cell == 10 then bestMove
    else if b[cell - 1] == Empty && Score(b, cell) > bestScore then
      ChooseFrom(b, cell + 1, Score(b, cell), Some(cell))
    else
      ChooseFrom(b, cell + 1, bestScore, bestMove)
  }

  /**
    move: None exactly on a full board; otherwise an empty cell of
    greatest score, the lowest-numbered one among equals.
   */
  function ChosenMove(b: Board): (r: Option<int>)
    ensures r.None? <==> CheckDraw(b)
    ensures r.Some? ==> 1 <= r.value <= 9 && b[r.value - 1] == Empty
    ensures r.Some? ==> forall j :: 1 <= j <= 9 && b[j - 1] == Empty ==> Score(b, j) <= Score(b, r.value)
    ensures r.Some? ==> forall j :: 1 <= j < r.value && b[j - 1] == Empty ==> Score(b, j) < Score(b, r.value)
  {
    ChooseFrom(b, 1, NegInf, None)
  }

  /** At most one cell satisfies ChosenMove's description, so that description fixes the result. */
  lemma FirstBestIsUnique(b: Board, k: int, k': int)
    requires 1 <= k <= 9 && b[k - 1] == Empty && 1 <= k' <= 9 && b[k' - 1] == Empty
    requires Score(b, k') <= Score(b, k) && Score(b, k) <= Score(b, k')
    requires forall j :: 1 <= j < k && b[j - 1] == Empty ==> Score(b, j) < Score(b, k)
    requires forall j :: 1 <= j < k' && b[j - 1] == Empty ==> Score(b, j) < Score(b, k')
    ensures k == k'
  {
  }
}
