# tictactoebot: the computer opponent and the keyboard layout, in Dafny

tictactoebot is a Telegram bot that plays tic-tac-toe. This project models two
parts of it and proves properties about them.

**The computer opponent (`tictactoebot/ai.py`).**
- A position is nine cells, numbered 1..9 row by row. A cell holds 1 for the side to move (the Mover), -1 for its opponent or 0 when empty.
- `RandomAI` answers a random empty cell.
- `MiniMaxAI` answers the empty cell with the best exhaustive-minimax score. Ties go to the lowest cell number.
- While searching, it writes trial marks into the shared position and erases them again.
- The two fixtures at the end of the file fix its answers on two positions.

**The language keyboard (`tictactoebot/keyboards.py`, `tictactoebot/Keyboards.py`).**
- `make_splited_inline_kb` lays out the entries of a dictionary as rows of inline buttons.
- It opens a new row once a counter exceeds `size`, so full rows hold `size + 1` buttons.
- `make_lang_kb` calls it with size 2 in keyboards.py, and with the default size 3 in Keyboards.py.

**Modules.**
- `Position` (position.dfy): the position, `check_is_win`, `check_draw`, `_get_empty_indexes`, and the count of empty cells the search shrinks.
- `Minimax` (minimax.dfy): the value `minimax` computes and the cell `move` picks, as functions of the position, plus the game-theoretic facts about them.
- `Ai` (ai.dfy): the classes `RandomAI` and `MiniMaxAI` over a shared nine-element array. Their methods are proved against the `Minimax` functions.
- `AiFixtures` (fixtures.dfy): the fixtures `test1` and `test2`. The game-tree facts that decide them are proved as lemmas, and each fixture is also a method that runs `MiniMaxAI.Move` on a fresh array.
- `Keyboards` (keyboards.dfy): the row-chunking loop and `make_lang_kb` of keyboards.py.
- `LegacyKeyboards` (legacy_keyboards.dfy): `make_lang_kb` of Keyboards.py. It shares the chunking loop, because that function is identical in both files.

## Model

| member | source | states |
|---|---|---|
| Position.CheckIsWin | tictactoebot/ai.py:145-158 | check_is_win: the eight lines written out one by one; what it means is stated by the two lemmas below |
| Position.CheckIsWinMatchesCombinations | tictactoebot/ai.py:42-46 | check_is_win holds exactly when some triple of WINNING_COMBINATIONS has all three cells equal to the symbol |
| Position.CheckIsWinIffThreeInARow | tictactoebot/ai.py:145-158 | check_is_win holds exactly when a full row, a full column or one of the two full diagonals of the 3x3 grid holds the symbol (both directions) |
| Position.CheckDraw | tictactoebot/ai.py:160-170 | check_draw: no cell is empty; its meaning is stated by the lemma below |
| Position.CheckDrawIffNoEmptyIndexes | tictactoebot/ai.py:160-170 | check_draw holds exactly when no cell is empty, i.e. the list of empty cells is empty; it does not look for a line |
| Position.EmptyIndexes | tictactoebot/ai.py:34-35 | _get_empty_indexes holds exactly the numbers of the empty cells, each once, in increasing (dictionary) order |
| Position.FillRemovesEmpty | tictactoebot/ai.py:126-129 | marking an empty cell leaves one empty cell fewer: the measure on which the search terminates |
| Minimax.MinimaxValue | tictactoebot/ai.py:117-143 | minimax returns -1, 0 or 1: outside the terminal cases some cell is empty, so the infinite starting value is always replaced |
| Minimax.BestReply | tictactoebot/ai.py:124-143 | the search loop from a cell on: its result is never worse than the best so far, and is -1..1 once a score has been seen or an empty cell remains |
| Minimax.BestReplyCoversEachMove | tictactoebot/ai.py:126-133 | the loop's result is at least as good for the side to play as every empty cell it tries |
| Minimax.BestReplyIsAttained | tictactoebot/ai.py:126-143 | the loop's result is its starting value or the value of one of the empty cells it tries |
| Minimax.MinimaxIsBestReply | tictactoebot/ai.py:124-143 | on an open position minimax is the maximum (minimum) over the empty cells of the value after marking that cell, and some empty cell reaches it |
| Minimax.WinIsCheckedBeforeDraw | tictactoebot/ai.py:117-122 | a Mover line scores 1 whatever else holds: full board or an Opponent line as well |
| Minimax.OpponentLineBeforeDraw | tictactoebot/ai.py:119-122 | an Opponent line without a Mover line scores -1 whatever side is to play, even on a full board: the Opponent line is checked before the draw |
| Minimax.ImmediateWin | tictactoebot/ai.py:124-133 | with the maximizing side to play, an empty cell that completes a Mover line makes the value 1 |
| Minimax.ImmediateLoss | tictactoebot/ai.py:134-143 | with the minimizing side to play, an empty cell that completes an Opponent line makes the value -1 (marking -1 can never create a Mover line) |
| Minimax.MinAtLeast | tictactoebot/ai.py:134-143 | the minimizing side's value is at least v when every reply is at least v |
| Minimax.MaxAtLeast | tictactoebot/ai.py:124-133 | the maximizing side's value is at least v when one reply is at least v |
| Minimax.ScoreOfCompletedLine | tictactoebot/ai.py:60-61 | the score the `with` block of move gives a cell is -1, 0 or 1, and a cell that completes a Mover line scores 1 at once, the same as a later forced win |
| Minimax.ChooseFrom | tictactoebot/ai.py:58-64 | the rest of move's loop: None only on a full board, otherwise a first best empty cell |
| Minimax.ChosenMove | tictactoebot/ai.py:48-66 | move gives None exactly on a full board; otherwise an empty cell 1..9 whose score no empty cell beats, and every lower-numbered empty cell scores strictly less |
| Ai.RandomAI.constructor | tictactoebot/ai.py:7-19 | the opponent keeps the caller's position itself, not a copy |
| Ai.RandomAI.Move | tictactoebot/ai.py:37-38 | move returns an entry of _get_empty_indexes: a cell 1..9 that is empty |
| Ai.MiniMaxAI.constructor | tictactoebot/ai.py:7-19 | the opponent keeps the caller's position itself, not a copy, so its trial marks are written into the caller's board |
| Ai.MiniMaxAI.Move | tictactoebot/ai.py:48-66 | the loop computes ChosenMove of the position it started from, and the position is the same afterwards |
| Ai.MiniMaxAI.SetBoard | tictactoebot/ai.py:68-79 | the set_board block scores the position with the one cell overwritten, then restores that cell, so the position is unchanged |
| Ai.MiniMaxAI.Minimax | tictactoebot/ai.py:82-143 | the in-place search returns MinimaxValue of the position it was given, whatever depth it is passed, and every trial mark is undone |
| AiFixtures.FirstFixtureOffCentreLoses | tictactoebot/ai.py:173-180 | in test1, cells 3, 4, 6, 7 and 8 score -1: the Opponent then completes 1-5-9 |
| AiFixtures.FirstFixtureCentreDraws | tictactoebot/ai.py:173-180 | in test1, cell 5 scores at least 0 |
| AiFixtures.FirstFixtureChoosesCentre | tictactoebot/ai.py:173-180 | ChosenMove of test1's position is cell 5 |
| AiFixtures.SecondFixtureNotBlockingLoses | tictactoebot/ai.py:183-190 | in test2, cells 3 and 6 score -1: the Opponent then completes 1-4-7 |
| AiFixtures.SecondFixtureBlockWins | tictactoebot/ai.py:183-190 | in test2, cell 7 scores 1: it blocks and leaves the Mover two threats |
| AiFixtures.SecondFixtureTie | tictactoebot/ai.py:183-190 | in test2, the immediate win at cell 8 scores the same as cell 7, since there is no depth weighting |
| AiFixtures.SecondFixtureChoosesSeven | tictactoebot/ai.py:183-190 | ChosenMove of test2's position is cell 7: the lower cell wins the tie |
| AiFixtures.Test1 | tictactoebot/ai.py:173-180 | MiniMaxAI(board).move() on test1's position returns 5 |
| AiFixtures.Test2 | tictactoebot/ai.py:183-190 | MiniMaxAI(board).move() on test2's position returns 7 |
| Keyboards.Buttons | tictactoebot/keyboards.py:15-21 | one button per entry, in entry order, with the entry's value as text and its key as code |
| Keyboards.MakeSplitedInlineKb | tictactoebot/keyboards.py:11-30 | the rows read in order give one button per entry in order; every row but the last holds exactly size + 1 buttons (1 when size < 1) and the last fewer; there are n div (size + 1) + 1 rows and the last holds n mod (size + 1), so the input [] gives one empty row and a multiple of size + 1 a trailing empty row. The same loop is Keyboards.py:7-26 |
| Keyboards.ChunkedIsUnique | tictactoebot/keyboards.py:22-26 | rows of a fixed width with a short last row are fixed by their buttons: the layout above is the only one |
| Keyboards.MakeLangKb | tictactoebot/keyboards.py:7-8 | make_lang_kb keeps every language in order, in full rows of 3 and a last row of n mod 3, with n div 3 + 1 rows; so no row holds more than 3 |
| LegacyKeyboards.MakeLangKb | tictactoebot/Keyboards.py:5-26 | make_lang_kb with the default size: every language in order, full rows of 4, a last row of n mod 4, n div 4 + 1 rows |

## Left out

- The Telegram handlers, database, translations, configuration and type declarations (callback_queries.py, commands.py, inline_queries.py, modules/, db.py, translate.py, config.py, constants.py, enums.py, data.py, filters.py) are network, disk and declaration code and are not part of this model.
- make_difficulty_kb (tictactoebot/keyboards.py:33-47) is a constant two-button layout over translation lookups and is not modelled.
- Ai.RandomAI.Move: the probability distribution of random.choice is not modelled; the result is any empty cell. A full board is excluded by the precondition, since random.choice raises on an empty list.
- Minimax.MinimaxValue: the float("-inf") and float("inf") starting values are the integers -2 and 2; every score compared against them is -1, 0 or 1, so comparisons come out the same.
- Ai.MiniMaxAI.Minimax: the source's `board` parameter is always `self.board`, so the method works on the field; `depth` is accepted and, as in the source, has no effect.
- A position is indexed by cells 1..9 in that order. A dictionary with other keys, or with keys 1..9 inserted in another order, is not modelled.
- Ai.MiniMaxAI.SetBoard: the context manager's `finally` restore on an exception is not modelled, since no exception can arise inside the block here.
- Keyboards.MakeSplitedInlineKb: a button is its text and the entry's key. The packing of the key into callback data by `filt(code=key).pack()` is aiogram code and is not modelled.
- Keyboards.MakeSplitedInlineKb: the result is a value. The source's `child` list is shared with `parent` and appended to in place; here the open row is the last row of the result. That is the only row the source ever appends to, so the contents agree.
- A dictionary is modelled as its sequence of (key, value) pairs in iteration order; the uniqueness of its keys is not used.
