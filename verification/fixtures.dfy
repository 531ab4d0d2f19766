/**
  The two regression positions at the end of tictactoebot/ai.py
  (test1 and test2), with the game-tree reasoning that fixes what
  MiniMaxAI.move answers on them.
 */
module AiFixtures {
  import opened Position
  import opened Minimax
  import opened Ai

  /** test1: the Opponent holds cells 1 and 9, the Mover holds cell 2. */
  const Test1Board: Board := [-1, 1, 0, 0, 0, 0, 0, 0, -1]

  /** test2: the Opponent holds cells 1, 4 and 9, the Mover holds cells 2 and 5. */
  const Test2Board: Board := [-1, 1, 0, -1, 1, 0, 0, 0, -1]

  /** In test1 every cell but the centre lets the Opponent complete 1-5-9 at once. */
  lemma FirstFixtureOffCentreLoses(cell: int)
    requires cell in {3, 4, 6, 7, 8}
    ensures Score(Test1Board, cell) == -1
  {
    var n := Test1Board[cell - 1 := Mover];
    assert n[4] == Empty;
    assert Open(n);
    ImmediateLoss(n, 4);
  }

  /**
    test1 after the centre, the Opponent's block at cell 8, the Mover's
    block at cell 7 and the Opponent's block at cell 3: the Mover blocks
    3-6-9 at cell 6 and the Opponent's last mark at cell 4 fills the
    board with no line.
   */
  lemma FirstFixtureLastFill()
    ensures MinimaxValue([-1, 1, -1, 0, 1, 0, 1, -1, -1], true) >= 0
  {
    var q: Board := [-1, 1, -1, 0, 1, 0, 1, -1, -1];
    var r: Board := [-1, 1, -1, 0, 1, 1, 1, -1, -1];
    var s: Board := [-1, 1, -1, -1, 1, 1, 1, -1, -1];
    assert r == Reply(q, true, 5) && s == Reply(r, false, 3);
    assert q[3] == Empty && r[3] == Empty;
    assert Open(q) && Open(r);
    assert !CheckIsWin(s, Mover) && !CheckIsWin(s, Opponent) && CheckDraw(s);
    MinAtLeast(r, 0);
    MaxAtLeast(q, 5, 0);
  }

  /**
    test1 after the centre and the Opponent's block at cell 8: the Mover
    blocks 7-8-9 at cell 7, which threatens 3-5-7; every Opponent reply
    but the block at cell 3 loses at once.
   */
  lemma FirstFixtureForcedDraw()
    ensures MinimaxValue([-1, 1, 0, 0, 1, 0, 0, -1, -1], true) >= 0
  {
    var m: Board := [-1, 1, 0, 0, 1, 0, 0, -1, -1];
    var p: Board := [-1, 1, 0, 0, 1, 0, 1, -1, -1];
    assert p == Reply(m, true, 6);
    assert m[2] == Empty && p[2] == Empty;
    assert Open(m) && Open(p);
    forall j | 0 <= j < 9 && p[j] == Empty
      ensures MinimaxValue(Reply(p, false, j), true) >= 0
    {
      if j == 2 {
        assert Reply(p, false, 2) == [-1, 1, -1, 0, 1, 0, 1, -1, -1];
        FirstFixtureLastFill();
      } else {
        assert Reply(p, false, j)[2] == Empty;
        ImmediateWin(Reply(p, false, j), 2);
      }
    }
    MinAtLeast(p, 0);
    MaxAtLeast(m, 6, 0);
  }

  /**
    In test1 the centre holds at least a draw: the Mover threatens 2-5-8,
    so every Opponent reply but cell 8 loses at once.
   */
  lemma FirstFixtureCentreDraws()
    ensures Score(Test1Board, 5) >= 0
  {
    var n: Board := [-1, 1, 0, 0, 1, 0, 0, 0, -1];
    assert n == Test1Board[4 := Mover];
    assert n[2] == Empty;
    assert Open(n);
    forall j | 0 <= j < 9 && n[j] == Empty
      ensures MinimaxValue(Reply(n, false, j), true) >= 0
    {
      if j == 7 {
        assert Reply(n, false, 7) == [-1, 1, 0, 0, 1, 0, 0, -1, -1];
        FirstFixtureForcedDraw();
      } else {
        assert Reply(n, false, j)[7] == Empty;
        ImmediateWin(Reply(n, false, j), 7);
      }
    }
    MinAtLeast(n, 0);
  }

  /** test1: move answers cell 5. */
  lemma FirstFixtureChoosesCentre()
    ensures ChosenMove(Test1Board) == Some(5)
  {
    FirstFixtureCentreDraws();
    FirstFixtureOffCentreLoses(3);
    FirstFixtureOffCentreLoses(4);
    FirstFixtureOffCentreLoses(6);
    FirstFixtureOffCentreLoses(7);
    FirstFixtureOffCentreLoses(8);
    assert Test1Board[2] == Empty;
    var k := ChosenMove(Test1Board).value;
    assert Score(Test1Board, 5) <= Score(Test1Board, k);
    assert k == 3 || k == 4 || k == 5 || k == 6 || k == 7 || k == 8;
    assert k == 5;
  }

  /** In test2, cells 3 and 6 let the Opponent complete 1-4-7 at once. */
  lemma SecondFixtureNotBlockingLoses(cell: int)
    requires cell in {3, 6}
    ensures Score(Test2Board, cell) == -1
  {
    var n := Test2Board[cell - 1 := Mover];
    assert n[6] == Empty;
    assert Open(n);
    ImmediateLoss(n, 6);
  }

  /** In test2, cell 7 blocks 1-4-7 and leaves two Mover threats (3-5-7 and 2-5-8): a forced win. */
  lemma SecondFixtureBlockWins()
    ensures Score(Test2Board, 7) == 1
  {
    var n: Board := [-1, 1, 0, -1, 1, 0, 1, 0, -1];
    assert n == Test2Board[6 := Mover];
    assert Open(n);
    forall j | 0 <= j < 9 && n[j] == Empty
      ensures MinimaxValue(Reply(n, false, j), true) >= 1
    {
      assert Open(Reply(n, false, j));
      if j == 7 {
        ImmediateWin(Reply(n, false, j), 2);
      } else {
        ImmediateWin(Reply(n, false, j), 7);
      }
    }
    MinAtLeast(n, 1);
  }

  /**
    In test2, cell 8 wins on the spot (2-5-8) and scores the same as
    cell 7: minimax does not prefer quicker wins, and move keeps the
    earlier cell.
   */
  lemma SecondFixtureTie()
    ensures Score(Test2Board, 8) == Score(Test2Board, 7) == 1
  {
    SecondFixtureBlockWins();
    assert CheckIsWin(Test2Board[7 := Mover], Mover);
  }

  /** test2: move answers cell 7. */
  lemma SecondFixtureChoosesSeven()
    ensures ChosenMove(Test2Board) == Some(7)
  {
    SecondFixtureTie();
    SecondFixtureNotBlockingLoses(3);
    SecondFixtureNotBlockingLoses(6);
    assert Test2Board[2] == Empty;
    var k := ChosenMove(Test2Board).value;
    assert k == 3 || k == 6 || k == 7 || k == 8;
    assert Score(Test2Board, 7) <= Score(Test2Board, k);
    assert k == 7;
  }

  /** test1 run through the imperative MiniMaxAI: it answers 5. */
  method Test1() returns (move: Option<int>)
    ensures move == Some(5)
  {
    var board := new int[9];
    board[0], board[1], board[2] := -1, 1, 0;
    board[3], board[4], board[5] := 0, 0, 0;
    board[6], board[7], board[8] := 0, 0, -1;
    assert board[..] == Test1Board;
    var ai := new MiniMaxAI(board);
    move := ai.Move();
    FirstFixtureChoosesCentre();
  }

  /** test2 run through the imperative MiniMaxAI: it answers 7. */
  method Test2() returns (move: Option<int>)
    ensures move == Some(7)
  {
    var board := new int[9];
    board[0], board[1], board[2] := -1, 1, 0;
    board[3], board[4], board[5] := -1, 1, 0;
    board[6], board[7], board[8] := 0, 0, -1;
    assert board[..] == Test2Board;
    var ai := new MiniMaxAI(board);
    move := ai.Move();
    SecondFixtureChoosesSeven();
  }
}
