# Connect4 game rules, minimax search and text board, in Dafny

This project models two parts of the Connect4 repository.

- **connect4.py** holds the game rules on a 6×7 board stored as a list of rows. A cell is `"R"`, `"Y"` or `None` (EMPTY). It covers:
  - `initial_state`;
  - `player`, which decides whose turn it is by counting discs;
  - `inverse`, the transpose of the board;
  - `actions`, the drop position of every open column;
  - `result`, which places a disc and raises `ValueError` on an occupied cell;
  - `winner`, `terminal` and `utility`;
  - the exhaustive search `minimax` / `min_value` / `max_value`.
- **cli.py** holds the column-based `Game`. Each column is a list whose last element is the bottom disc. The model covers the constructor, `getStateTuple`, and the text that `show` builds.

Modules:

- `Wrappers` (wrappers.dfy): `Option` and `Result`. `Result.Error` stands for a Python exception.
- `Connect4` (connect4.dfy): the board and the rules.
- `Search` (search.dfy): `min_value`, `max_value` and `minimax`.
- `Cli` (cli.dfy): `Game` and the text of `show`.

The model follows the code, including its quirks:

- `winner` is a tic-tac-toe check, not a Connect-Four check. Its eight lines are, in order:
  - row 0, column 0, row 1, column 1, row 2, column 2;
  - the diagonal and the anti-diagonal.
- Rows are whole 7-cell rows. Columns and diagonals cover only the top-left 3×3 block.
- The first line whose cells are all equal decides the result, even when that line is all EMPTY. So a board whose row 0 is empty never has a winner.

Boards have value semantics: `seq<seq<Cell>>`, where `WellFormed` means 6 rows of 7 cells. `result` therefore never changes its input.

`Result` stands for the exception that `result` raises, and for its propagation through the search and `minimax`. The search visits the action set in column order. The lemmas show that `min_value` and `max_value` are the minimum and maximum over the whole set, so the values do not depend on the order. `minimax` keeps the first optimum, which here is the optimum in the lowest column.

## Model

| member | source | states |
|---|---|---|
| Connect4.InitialState | connect4.py:15-19 | `initial_state` is 6 rows of 7 cells, every cell EMPTY |
| Connect4.InitialStateFacts | connect4.py:15-19 | On the empty 6×7 board R moves first, both players have equally many discs (zero), every column is gap-free, all 42 cells are EMPTY and the game is not over |
| Connect4.PlayerByRows | connect4.py:26-31 | `player`, modelled by `Connect4.Player`, is Y exactly when Y has fewer discs than R, summed row by row, and R otherwise, so R moves on a tie |
| Connect4.PlayerAlternates | connect4.py:22-31 | From a position with alternating disc counts, a successful move keeps the counts alternating and hands the turn to the other player |
| Connect4.Inverse | connect4.py:33-40 | The inverse has 7 columns of 6 cells each |
| Connect4.InverseRoundTrip | connect4.py:37-40 | Column i of the inverse holds cell i of row j at index j, and transposing back gives the board again |
| Connect4.Height | connect4.py:51-52 | The drop row `h - inv[c].count(EMPTY)` lies in 0..6, and it is below 6 exactly when column c has an EMPTY cell |
| Connect4.GravityHeight | connect4.py:51 | On a board whose columns fill from row 0 without gaps, column c's discs are exactly the rows below the drop row |
| Connect4.ActionSeq | connect4.py:50-54 | The search's visiting order lists the actions in strictly increasing column order, so there is at most one per column |
| Connect4.ActionSeqMembers | connect4.py:50-54 | The action list holds exactly the offered moves: (drop row, column) for each open column |
| Connect4.Actions | connect4.py:43-54 | The action set holds a pair exactly when it is the drop position of an open column; every pair is on the board; no column has two pairs |
| Connect4.NoActionMeansFull | connect4.py:50-54 | When no action is offered, every cell is occupied |
| Connect4.PlaceCounts | connect4.py:64-66 | Writing a disc on an EMPTY cell removes one EMPTY, adds one disc of that colour and leaves the other colour's count unchanged |
| Connect4.ResultOf | connect4.py:58-69 | `result`, modelled by `Connect4.ResultOf`: the move succeeds exactly when the target cell is EMPTY, otherwise it raises "action is not valid". On success the board equals the input except at the target cell, which holds the player to move, and one EMPTY cell fewer remains |
| Connect4.ResultOfAction | connect4.py:58-69 | On a gap-free board an offered action targets the lowest EMPTY cell of its column, never raises, and the board stays gap-free |
| Connect4.Lines | connect4.py:76-81 | `winner` compares eight non-empty lines |
| Connect4.Winner | connect4.py:72-85 | `winner` returns a disc only as the shared value of a line that is all equal while every earlier line is not |
| Connect4.WinnerIsFirstLine | connect4.py:82-84 | When line k is all equal and no earlier line is, the winner is line k's shared value, EMPTY included |
| Connect4.WinnerWithoutLine | connect4.py:82-85 | Without any all-equal line the winner is EMPTY |
| Connect4.WinnerReadsTopRowsOnly | connect4.py:76-81 | Boards that agree on rows 0 to 2 have the same winner |
| Connect4.EmptyCornerColumnHasNoWinner | connect4.py:76-84 | While the top three cells of column 0 are EMPTY there is no winner, whatever the rest of the board holds |
| Connect4.TerminalIffNoEmpties | connect4.py:88-100 | `terminal`, modelled by `Connect4.Terminal`, holds exactly when the winner is a disc or no EMPTY cell is left |
| Connect4.NotTerminalHasAction | connect4.py:88-100 | A game that is not over still offers at least one action |
| Connect4.Utility | connect4.py:103-108 | The utility lies in -1..1. It is 1 exactly when R has won and -1 exactly when Y has won |
| Search.TerminalValue | connect4.py:137-138 | On a finished board `min_value` and `max_value` return the utility without searching; the same holds at connect4.py:146-147 |
| Search.MinValueIsUtility | connect4.py:136-143 | Whatever `min_value`, modelled by `Search.MinValue`, returns without raising is -1, 0 or 1, never the sentinel |
| Search.MaxValueIsUtility | connect4.py:145-152 | Whatever `max_value`, modelled by `Search.MaxValue`, returns without raising is -1, 0 or 1, never the sentinel |
| Search.MinOverIsUtility | connect4.py:140-142 | The loop of `min_value` over a non-empty action list, or from a utility start value, ends with a utility |
| Search.MaxOverIsUtility | connect4.py:149-151 | The loop of `max_value` over a non-empty action list, or from a utility start value, ends with a utility |
| Search.MinValueTotal | connect4.py:136-143 | On a gap-free board `min_value` terminates without raising |
| Search.MaxValueTotal | connect4.py:145-152 | On a gap-free board `max_value` terminates without raising |
| Search.MinOverTotal | connect4.py:140-142 | On a gap-free board the loop of `min_value` never raises |
| Search.MaxOverTotal | connect4.py:149-151 | On a gap-free board the loop of `max_value` never raises |
| Search.MinOverIsLeast | connect4.py:140-142 | The loop of `min_value` ends at or below its start value and every visited score, and it equals the start value or one of those scores |
| Search.MaxOverIsGreatest | connect4.py:149-151 | The loop of `max_value` ends at or above its start value and every visited score, and it equals the start value or one of those scores |
| Search.MinOverRaises | connect4.py:140-142 | The loop of `min_value` raises only when the score of some visited action raises |
| Search.MinValueIsMinimum | connect4.py:139-143 | On an unfinished board `min_value` raises exactly when some action's `max_value(result(board, a))` raises. Otherwise it is the least such value over the whole action set, and some action attains it |
| Search.MaxOverRaises | connect4.py:149-151 | The loop of `max_value` raises only when the score of some visited action raises |
| Search.MaxValueIsMaximum | connect4.py:148-152 | On an unfinished board `max_value` raises exactly when some action's `min_value(result(board, a))` raises. Otherwise it is the greatest such value over the whole action set, and some action attains it |
| Search.MinScoreFacts | connect4.py:121 | `min_value(result(board, action))` for an offered action never raises on a gap-free board and is always a utility |
| Search.MaxScoreFacts | connect4.py:129 | `max_value(result(board, action))` for an offered action never raises on a gap-free board and is always a utility |
| Search.RedChoice | connect4.py:118-124 | The first action in the visiting order whose score no other score beats is optimal for R: its `min_value` is the greatest, and it is strictly greater than that of every offered action in a lower column |
| Search.YellowChoice | connect4.py:126-132 | The first action in the visiting order whose score no other score beats is optimal for Y: its `max_value` is the least, and it is strictly smaller than that of every offered action in a lower column |
| Search.RedOutcome | connect4.py:117-124 | After R's loop: it raises exactly when some offered action's `min_value(result(board, a))` raises, which cannot happen on a gap-free board. It keeps nothing exactly when no action is offered, and otherwise keeps an offered action that is optimal for R |
| Search.YellowOutcome | connect4.py:125-132 | After Y's loop: it raises exactly when some offered action's `max_value(result(board, a))` raises, which cannot happen on a gap-free board. It keeps nothing exactly when no action is offered, and otherwise keeps an offered action that is optimal for Y |
| Search.KeepBest | connect4.py:118-132 | The strict-improvement loop succeeds exactly when no score raises. It keeps nothing exactly when there is no action. Otherwise it keeps an action whose score nothing beats and which strictly beats every earlier one |
| Search.BestForRed | connect4.py:117-124 | R's branch: raises exactly when some offered action's `min_value(result(board, a))` raises, so never on a gap-free board. It returns None exactly when no action is offered, and otherwise returns an offered action that is optimal for R |
| Search.BestForYellow | connect4.py:125-132 | Y's branch: raises exactly when some offered action's `max_value(result(board, a))` raises, so never on a gap-free board. It returns None exactly when no action is offered, and otherwise returns an offered action that is optimal for Y |
| Search.Minimax | connect4.py:111-133 | Raises exactly when some offered action's score raises: `min_value(result(board, a))` when R moves, `max_value(result(board, a))` when Y moves. So it never raises on a gap-free board. Returns None exactly when no action is offered. Otherwise returns an offered action: the greatest `min_value` outcome when R moves, the least `max_value` outcome when Y moves, and the first such optimum in column order |
| Cli.NewGame | cli.py:11-14 | Without a state the game has exactly 7 empty columns; a supplied state is kept as given |
| Cli.StateTuple | cli.py:16-17 | The tuple keeps the number of columns, and each column keeps its length and its elements in order |
| Cli.SymbolAt | cli.py:23 | The cell rule, modelled by `Cli.Symbol`: display row h shows element `len - (6 - h)` of a column when the column holds at least `6 - h` items, and a blank otherwise |
| Cli.ColumnView | cli.py:22-24 | From top to bottom, a column of at most 6 items shows blanks, then its items in list order, so its last item is in the bottom row. A longer column shows only its last 6 items |
| Cli.ShowRows | cli.py:21-25 | The printed text has 14 lines: the title, the top border, display row h (0 is the top) at line 2 + 2h holding the symbol of every column at row h, the rule line between each two rows, and the bottom border |
| Cli.ShowStart | cli.py:21 | The text begins with "Current State:\n+" |
| Cli.BorderShape | cli.py:21-25 | The top and bottom borders are "++" with no column. Otherwise they are "+" followed by one "---+" per column, 4n+1 characters wide. The rule between rows has the same width |
| Cli.RowLineLayout | cli.py:22-24 | A row of one-character cells is 4n+1 characters wide, and cell i sits at position 2+4i, so the cells can be read back |
| Cli.ShowIsLines | cli.py:19-25 | The text that `show` builds, modelled by `Cli.Show`, is fourteen lines joined by line breaks: the title, the top border, the six rows with a rule between each two, and the bottom border |
| Cli.TableAligned | cli.py:21-25 | With at least one column and one-character disc labels, every line below the title is 4n+1 characters wide |

## Left out

- runner.py: it is the pygame front end (drawing, mouse input, sleeping). It has no rules of its own beyond calls into connect4.py.
- The `print` in `show` (cli.py:26) is not modelled; `Cli.Show` returns the string.
- The random demo game at cli.py:29-30 is not modelled: it uses `random.randint` and printing.
- Row sharing is not modelled. `initial_state` builds its rows with `[[EMPTY]*w]*h`, so all six rows are one list object, and `copy.deepcopy` in `result` keeps that sharing. Boards here are values whose rows are independent.
- The float sentinels `±1e10` (connect4.py:119, 127, 140, 149) become the integers ±10000000000. Both lie outside -1..1.
- The iteration order of the Python set returned by `actions` is unspecified. The search visits it in column order. The values of `min_value` and `max_value` are proved independent of the order. `minimax` is proved to return an optimal action, and the tie-break shown is the one for column order.
- Connect4.ResultOf: requires an action inside the board (row 0..5, column 0..6). `min_value`, `max_value` and `minimax` pass pairs from `actions`; runner.py:127-132 passes a clicked EMPTY cell with i < 6 and j < 7, which may leave a gap below it, so boards with gaps are reachable and the search lemmas cover them. Python's negative-index wrap-around and the `IndexError` for larger indices are not modelled.
- Connect4.Inverse, Connect4.Height, Connect4.ResultOf and the search: require a well-formed 6×7 board. On other shapes Python raises `IndexError` or reads only part of the board, and that is not modelled.
- Connect4.Height: its contract says only whether the column is open. That the drop row equals the number of discs in the column is stated for gap-free boards by Connect4.GravityHeight.
- Search.MinValueTotal and Search.MaxValueTotal: they promise no exception only on gap-free boards. On other boards, when the search raises is stated by Search.MinValueIsMinimum and Search.MaxValueIsMaximum.
- Cli.Show: disc labels are typed as strings. Python's `join` would raise on a non-string entry, and that error is not modelled.
