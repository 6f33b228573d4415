# Othello rules engine in Dafny

This project models the `Othello` class of `Othello.py`.

The board is a 10x10 grid. The outer rows and columns hold the `*` sentinel (`Border`). The 8x8 playing area holds `.` (`Empty`), `X` (`Black`) or `O` (`White`). The class has these operations:
- Opening the board.
- Registering players.
- Listing the positions where a colour may move.
- Making a move. The move places the piece, then turns over every opponent run it sandwiches, scanning the eight directions in the source's order.
- Driving one turn of the game (`play_game`). It refuses a position that is not on the list; otherwise it makes the move and detects the end of the game.
- Naming the winner.

The project has four modules:
- `Board` (`board.dfy`): cells, colours, positions, the frame invariant (`Framed`), rays from a cell, single-cell updates, and piece counts.
- `Scan` (`scan.dfy`): the scan of one direction as a pure function of the board (`Ray`, `RunLength`, `Qualifies`), the sandwich rule stated independently (`Sandwiched`), and the list `return_available_positions` builds (`AvailablePositions`).
- `Capture` (`capture.dfy`): what `make_move` does to a board value:
  - `FlipRun`, `FlipStep` and `Sweep` over the directions, and `Move`;
  - a direction-order-free characterisation (`Captured`);
  - the piece counts before and after a move.
- `Game` (`game.dfy`): the `Player` record (Othello.py:11-21) as a datatype value, the winner verdict, the end-of-game test, and the `Othello` class.

The `Othello` class keeps the board as an `array2<Cell>` that its methods update in place. A ghost field `cells` holds the same contents as a grid value, and `Valid()` ties the two together cell by cell. Every method is specified against the functions of `Scan` and `Capture`. The properties of the game are proved about those functions.

Two behaviours of the code that a reader of the Othello rules may not expect:
- **The legal list is not a set.** `return_available_positions` appends a position once for every direction that qualifies, so a position can appear several times. The list comes out in row-major order. `Scan.AvailableMultiplicity` and `Scan.AvailableRowMajor` state exactly this.
- **The end of the game is not reported in the return value.** When neither colour can move, `play_game` prints both counts and then calls `return_winner`. With a black and a white player registered, it prints the winner and still returns "Move completed.". The model's `GameOver` outcome carries what is printed. With fewer than two players registered, `return_winner` can raise IndexError instead (Othello.py:61 or 64): when the counts differ and no registered player holds the leading colour. The exception then escapes `play_game` after the move has been made. The model reports that case as a `GameOver` outcome whose verdict is `PlayerMissing`, on the board after the move.

## Model

| member | source | states |
|---|---|---|
| Board.Opponent | Othello.py:76 | The opponent of a colour is the other colour, as `'O' if color == 'X' else 'X'` gives for X and O. |
| Board.RowPlaceCount | Othello.py:57-58 | Writing one cell of a row moves that row's count of a value by removing the old content and adding the new one. |
| Board.CountPlace | Othello.py:57-58 | Writing one cell changes the count of a cell value by removing the old content and adding the new one, so the count moves by at most one. |
| Board.CountZero | Othello.py:57-58 | A count is zero exactly when no cell of the grid holds that value. |
| Scan.Ray | Othello.py:81-85 | The ray of a direction is the nine cells 1..9 steps along it, the longest walk the 10x10 board allows. |
| Scan.LeadRun | Othello.py:83-85 | The inner while loop's count: the first n cells hold the opponent, and the cell after them, if any, does not. |
| Scan.RunLength | Othello.py:81-85 | The run next to a cell is at most nine cells long, and every cell of it holds the opponent. |
| Scan.Qualifies | Othello.py:81-87 | A direction qualifies exactly when its run has one to eight opponent cells and the cell after the run holds the mover's colour. |
| Scan.RunStaysInside | Othello.py:81-85 | On a framed board, the walk over opponent cells from a playing cell stops before the frame. Every cell it reads, including the one that stops it, is on the grid, so no scan leaves the 10x10 board. |
| Scan.RunCells | Othello.py:83-85 | The first RunLength steps along d hold the opponent. The step after them does not, and every step up to it is on the grid. |
| Scan.WalkDecides | Othello.py:81-86 | The neighbour holds the opponent exactly when the run is non-empty. With a non-empty run, the direction qualifies exactly when the cell after the run holds the mover's colour. With an empty run, it never qualifies. |
| Scan.SandwichFound | Othello.py:81-87 | A run of n ≥ 1 opponent cells closed by the mover's colour is exactly the run the scan finds (RunLength = n), and the direction qualifies. |
| Scan.QualifiesIffSandwiched | Othello.py:81-87 | The scan accepts a direction if and only if the sandwich rule holds: one or more opponent cells, immediately followed by a cell of the mover's colour. |
| Scan.Legal | Othello.py:79-87 | A position is a legal move exactly when its multiplicity (the number of qualifying directions of an Empty playing cell) is positive. |
| Scan.CellEntries | Othello.py:79-87 | One cell contributes at most eight entries, all of them that cell. |
| Scan.CellEntriesCount | Othello.py:79-87 | One cell's entries hold that cell once per qualifying direction when it is Empty, and nothing else. |
| Scan.RowEntriesCount | Othello.py:78-87 | The entries for cells (i, 1)..(i, j-1) hold each of those cells as often as its multiplicity, and nothing else. |
| Scan.ScanRowsCount | Othello.py:77-87 | The entries for rows 1..i-1 hold each cell of those rows as often as its multiplicity, and nothing else. |
| Scan.RowEntriesOrdered | Othello.py:78-87 | The entries for one row are in row-major order and lie in that row, left of column j. |
| Scan.ScanRowsOrdered | Othello.py:77-87 | The entries for rows 1..i-1 are in row-major order and lie in those rows of the playing area. |
| Scan.AvailablePositions | Othello.py:75-88 | Every listed position is in the playing area. |
| Scan.AvailableIffLegal | Othello.py:75-88 | A position is in the list if and only if it is an Empty playing cell with at least one qualifying direction. |
| Scan.AvailableMultiplicity | Othello.py:77-87 | Every position occurs in the list exactly as often as it has qualifying directions, and only if it is an Empty playing cell. |
| Scan.AvailableRowMajor | Othello.py:77-87 | The list is in row-major order, as the two nested loops visit the cells. |
| Scan.FlagsQualify | Othello.py:80-87 | A cell has a set direction flag exactly when one of the eight directions qualifies. |
| Capture.FlipRun | Othello.py:107-111 | Turning over steps 1..n of a ray keeps the grid 10x10 and leaves the placed cell alone. |
| Capture.FlipRunAt | Othello.py:107-111 | After turning over steps 1..n, a cell holds the mover's colour when it is 1..n steps along the ray, and keeps its value otherwise. |
| Capture.FlipRunFramed | Othello.py:107-111 | Turning over a qualifying direction's run keeps the frame and the placed piece. |
| Capture.FlipRunSnoc | Othello.py:108-111 | Turning over n cells is turning over the first n - 1, then writing the mover's colour at step n. |
| Capture.FlipStep | Othello.py:101-111 | One pass of the direction loop keeps the frame and does not change the placed piece. |
| Capture.Sweep | Othello.py:101-111 | The direction loop keeps the frame and does not change the placed piece. |
| Capture.SweepSnoc | Othello.py:101-111 | Handling the first k+1 directions is handling the first k, then direction k on the board they left. |
| Capture.FlipRunCount | Othello.py:107-111 | Turning over n opponent cells raises the mover's count by n and lowers the opponent's by n. |
| Capture.SweepExact | Othello.py:101-111 | After the loop over distinct directions, a cell holds the mover's colour when it lies inside the run of a direction that qualified on the board before the loop. Every other cell keeps its value. |
| Capture.Move | Othello.py:98-111 | make_move keeps the frame and leaves the mover's piece on the chosen cell. |
| Capture.CapturedOpponent | Othello.py:102-111 | Every captured cell held the opponent's colour before the move and is not on the frame. |
| Capture.MoveExact | Othello.py:98-111 | make_move turns exactly the placed cell and the cells captured on the board before the move to the mover's colour, and leaves every other cell alone. Every captured cell held the opponent. The frame is kept. |
| Capture.SweepOrderFree | Othello.py:101-111 | The board after the loop does not depend on the order of the directions, for any two lists of the same distinct directions. |
| Capture.MoveOrderFree | Othello.py:35 | Scanning the eight directions in any other order gives the same make_move result. |
| Capture.SweepCounts | Othello.py:101-111 | The loop raises the mover's count by the total length of the qualifying runs, and lowers the opponent's by the same amount. |
| Capture.Flips | Othello.py:101-111 | The number of cells turned over by a list of directions is at most eight per direction. |
| Capture.FlipsAtLeast | Othello.py:86-87 | A qualifying direction contributes a run of at least one cell to the number of flips. |
| Capture.FlipsPlace | Othello.py:99 | Placing the mover's piece first does not change which runs are flipped. |
| Capture.MoveCounts | Othello.py:98-111 | A move on an Empty cell raises the mover's count by k + 1 and lowers the opponent's by k, where k is the number of cells turned over. |
| Capture.LegalFlips | Othello.py:101-111 | A legal move turns over at least one opponent piece. |
| Game.ColorOf | Othello.py:122 | "black" plays X; every other string plays O. |
| Game.NameFor | Othello.py:60-64 | The name is the first player's if that player has the colour name, otherwise the second player's. It is absent exactly when that lookup would raise IndexError. |
| Game.Decide | Othello.py:57-66 | The verdict is a tie exactly when the counts are equal. A black win needs strictly more X pieces, and a white win strictly more O pieces. A missing player can only happen with fewer than two players registered. |
| Game.DecideNamesWinner | Othello.py:59-66 | With one black and one white player registered, in either order, the winner named is the player holding the colour with more pieces, and equal counts are a tie. |
| Game.NoneAvailableIffNoLegal | Othello.py:128 | A colour's list is empty exactly when that colour has no legal move anywhere. |
| Game.GameIsOverIffNoLegalMove | Othello.py:128 | The end-of-game test holds exactly when neither colour has a legal move. |
| Game.InitialLayout | Othello.py:29-33 | The opening board is Border on the frame, O on (4,4) and (5,5), X on (4,5) and (5,4), and Empty everywhere else. |
| Game.BlankCounts | Othello.py:29 | The board before the four opening pieces holds no X and no O. |
| Game.PlacePiece | Othello.py:30-33 | A piece put on an Empty cell adds one to its colour's count and leaves the other colour's count alone. |
| Game.FourPieces | Othello.py:30-33 | The four opening writes, on any board whose four centre cells are Empty, add two pieces of each colour. |
| Game.InitialCounts | Othello.py:29-33 | The opening board holds two X and two O pieces. |
| Game.PaintedStep | Othello.py:108-111 | One more step of the walk back writes the mover's colour on one more cell of the run. |
| Game.PaintedAt | Othello.py:108-111 | After the walk back from the far end down to step lo, a cell holds the mover's colour when it is lo..hi steps along the ray, and keeps its value otherwise. |
| Game.PaintedOrigin | Othello.py:108-111 | A walk back that ends by rewriting the placed piece with its own colour leaves exactly FlipRun's board. |
| Game.Othello.constructor | Othello.py:27-35 | The new board is the opening board and the player list is empty. |
| Game.Othello.Put | Othello.py:99 | One cell write updates the array and its grid value alike. |
| Game.Othello.CreatePlayer | Othello.py:43-50 | The player list grows by exactly the new player, and the board is untouched. |
| Game.Othello.Snapshot | Othello.py:57-58 | The grid read from the array, cell by cell, is the board's grid value. |
| Game.Othello.ReturnWinner | Othello.py:52-66 | The verdict on the board as it stands is Decide's verdict, read from the array. |
| Game.Othello.WalkRun | Othello.py:81-85 | The walk stops on the grid cell exactly RunLength + 1 steps along d. |
| Game.Othello.ScanDirection | Othello.py:81-86 | The direction is reported exactly when it qualifies. When it is, the walk ended on the grid cell just past the run, which holds the mover's colour. |
| Game.Othello.ScanCell | Othello.py:79-87 | Nothing is reported unless the cell is Empty; otherwise the cell is reported once per qualifying direction, in direction order. |
| Game.Othello.ScanRow | Othello.py:78-87 | The entries for one row, left to right. |
| Game.Othello.ReturnAvailablePositions | Othello.py:68-88 | The result is AvailablePositions of the current board, so the Scan lemmas apply to it. The method has no modifies clause, so the board is unchanged. |
| Game.Othello.WalkBack | Othello.py:107-111 | Walking back from the closing cell to the placed cell sets the run and the origin to the mover's colour. The result is FlipRun's board. |
| Game.Othello.TurnRun | Othello.py:107-111 | A qualifying direction's run is turned over, and the frame is kept. |
| Game.Othello.FlipDirection | Othello.py:102-111 | One direction: its run is turned over when it qualifies, and the board is unchanged otherwise. |
| Game.Othello.SweepDirections | Othello.py:101-111 | The loop over the eight directions leaves the Sweep board. |
| Game.Othello.MakeMove | Othello.py:90-112 | The new board is Move of the old one, so MoveExact and MoveCounts hold of it. |
| Game.Othello.NoMovesLeft | Othello.py:128 | The end-of-game test is computed, without changing the board. |
| Game.Othello.Accept | Othello.py:126-133 | An accepted move is made. When neither colour can move afterwards, the outcome carries both counts and return_winner's verdict on the new board. |
| Game.Othello.PlayGame | Othello.py:114-133 | A position that is not a legal move for the player's colour is refused with that colour's list, and the board is unchanged. A legal one is played as make_move describes and the end-of-game test follows. |

## Left out

- `print_board` (Othello.py:37-41) and the prints in `play_game` are not modelled. Output is I/O; the `GameOver` outcome carries what is printed.
- Message strings are not modelled. `return_winner` and `play_game` return strings in the source; the model returns the `Verdict` and `Outcome` datatypes.
- Game.Othello.MakeMove: requires a playing-area position. The source writes wherever it is told. On a frame cell it would overwrite the sentinel, and Python's negative indexes would wrap around. `play_game` only ever passes positions from the legal list, which are all in the playing area.
- Game.Othello.MakeMove: returns nothing. The source returns the board itself; here the board is the object's state.
- Game.Othello.ReturnAvailablePositions: takes only `X` or `O`. The source accepts any value as the colour. It then treats every non-`X` colour as having opponent `X`, and nobody calls it that way.
- The `_directions` list is the constant `Board.Directions`, because the source never changes it.
- The players' `_name` and `_color` are fields of a `Player` value, because they are never updated.
- The loop nests of `return_available_positions` and `make_move` are modelled one loop level per method. `ReturnAvailablePositions` calls `ScanRow`, `ScanCell`, `ScanDirection` and `WalkRun`. `MakeMove` calls `SweepDirections`, `FlipDirection`, `TurnRun` and `WalkBack`. The source writes out the walk along one direction twice, once in each of the two methods (Othello.py:81-86 and 102-106). The model writes it once, as `ScanDirection`, and `FlipDirection` calls it. The reads and writes happen in the same order as in the source.
- Game.Othello.PlayGame: at the end of the game, with fewer than two players registered and unequal counts, `return_winner` raises IndexError (Othello.py:61 or 64) unless the one registered player holds the leading colour. The exception escapes `play_game` after the move has been made. The model reports this as a `GameOver` outcome with verdict `PlayerMissing`, on the board after the move. `Game.Othello.Accept` does the same.
- Turn order is not modelled; the source keeps no state about whose turn it is either.
