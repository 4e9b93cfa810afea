# Casino core: Minesweeper engine, wagering ledger and Blackjack scoring

This project models the game logic of a small desktop casino written in
Python (`Casino_agurez_source.py`) and proves properties of it in Dafny. The
model has four parts:

- **The configuration table** (`config.dfy`). It holds the starting bankroll and the bet bounds. It also holds the
  three Minesweeper tiers (`easy`, `medium`, `hard`), each with its grid size, mine count and payout multiplier.
- **The Minesweeper engine** (`grid.dfy`, `minesweeper.dfy`). `MinesweeperGame` is a class. Its three grids (`board`,
  `revealed`, `flagged`) are `array2`s that its methods update in place. It also has the `gameOver`, `gameWon` and
  `firstClick` flags and a ghost `mineSet`, which names the cells that hold a mine. A mine is the marker `-1`. Every
  other cell holds the number of mines among its in-grid 8-neighbours. `grid.dfy` holds the pure geometry and counting
  that the class is specified against:
  - adjacency;
  - the neighbour count `AdjacentMines` and the cell value `CellValue`;
  - the set of zero cells;
  - the flood-fill bookkeeping (`Surrounded`, `SpreadDone`, `ReachedThroughZeros`, `FillSound`);
  - grid cardinalities.
- **The wagering ledger** (`gambling.dfy`). `GamblingSystem` is a class with the fields `bankroll`, `currentBet` and
  `currentDifficulty`. The settlement arithmetic sits in pure functions, which the class methods are proved against.
- **Blackjack hand scoring** (`blackjack.dfy`). `Score` is a specification function. `HandValue` is the game's own
  two-loop computation, proved equal to it.

Some of the program's inputs become parameters:

- **Mine placement.** The program draws the mine positions at random. The constructor takes them as a sequence of
  distinct in-grid positions.
- **Relocating the first-click mine.** The program picks the new position at random among the safe cells. `RevealCell`
  and `EnsureSafeFirstClick` take an index `pick` instead. The safe cell used is `safeSpots[pick % |safeSpots|]`, where
  `safeSpots` is built in the program's own row-major order.
- **Money.** Amounts are exact `real`s.

A few helpers are loops or steps pulled out of a larger source function, so that each proof stays small:

- `CountAdjacentMines` is the inner counting loop of `_calculate_numbers`.
- `CountRevealed` is the counting loop of `_check_win_condition`.
- `_flood_fill` is three mutually recursive methods: `FloodFill` reveals one cell, `FloodNeighbours` runs the two
  offset loops from a zero cell, and `FloodNeighbour` is one iteration of those loops. Together they take exactly the
  source's steps, in the source's order.

## Model

| member | source | states |
|---|---|---|
| Config.Difficulty | Casino_agurez_source.py:21-40 | Exactly the names easy, medium and hard have an entry (any other name is a missing key). Every entry is a playable tier: non-empty grid, fewer mines than cells, multiplier above 1. |
| Grid.AdjacentMines | Casino_agurez_source.py:79-88 | The neighbour mine count is at most 8. It is 0 exactly when no in-grid cell adjacent to p is a mine. |
| Grid.CellValue | Casino_agurez_source.py:72-90 | A numbered cell holds -1 exactly when it is a mine; otherwise it holds a value in 0..8. It holds 0 exactly when neither the cell nor any neighbour is a mine. |
| Grid.CellsCard | Casino_agurez_source.py:160-161 | A rows x cols grid has rows * cols cells (the `total_cells` of the win check). |
| Grid.SafeCountComplete | Casino_agurez_source.py:152-165 | With the mines inside the grid, a set of mine-free cells has rows * cols - mines elements exactly when it is every mine-free cell. So counting revealed cells decides "all safe cells revealed". |
| Grid.FillStep | Casino_agurez_source.py:133-139 | A sound fill from a neighbour of a zero cell, appended to a sound fill from that zero cell, is a sound fill from the zero cell. "Sound" means three things. No mine is revealed. Every revealed zero cell ends surrounded by revealed cells. The revealed cells can be listed from the start so that each touches a zero cell listed before it. |
| Grid.ReachedExtend | Casino_agurez_source.py:133-139 | Reachability through zero cells composes: a fill from a zero cell, followed by a fill from one of its neighbours, reaches all cells of both. The two reveal orders are concatenated. |
| Grid.ReachedIsConnected | Casino_agurez_source.py:133-139 | A reached set has no detached part. Take any set of cells that misses the start and that no zero cell of the reached set outside it touches. The reached set has no cell in it. So every revealed cell joins the start through revealed zero cells. |
| Minesweeper.MinesweeperGame.constructor | Casino_agurez_source.py:44-60 | A new game is numbered correctly for its mines and satisfies the game invariant. It has the tier's dimensions, the given mines, no revealed or flagged cell, and is neither over nor won; firstClick is set. |
| Minesweeper.MinesweeperGame.PlaceMines | Casino_agurez_source.py:62-70 | On an all-zero board, afterwards a cell holds -1 exactly when it is one of the given positions, and 0 otherwise. |
| Minesweeper.MinesweeperGame.CountAdjacentMines | Casino_agurez_source.py:79-88 | The offset loops count exactly AdjacentMines of the cell, read from a board whose -1 markers are exactly the mines. |
| Minesweeper.MinesweeperGame.CalculateNumbers | Casino_agurez_source.py:72-90 | Afterwards every cell holds its CellValue: mines keep -1, and every other cell holds its neighbour mine count. |
| Minesweeper.MinesweeperGame.EnsureSafeFirstClick | Casino_agurez_source.py:114-125 | If the click is on a mine and some other mine-free cell exists, the mine moves to such a cell. The clicked cell is then mine-free, the mine count is unchanged and the board is renumbered. Otherwise the mines and the board are unchanged. |
| Minesweeper.MinesweeperGame.FloodFill | Casino_agurez_source.py:127-139 | Off-grid or already revealed: nothing changes. Otherwise the cell is revealed and revealed cells are never hidden again. A numbered start cell reveals only itself. Started on a mine-free cell of a correctly numbered board, the fill never reveals a mine. Every zero cell it reveals ends with all its neighbours revealed. Every cell it reveals joins the start through a chain of revealed zero cells, so detached zero groups are not revealed. |
| Minesweeper.MinesweeperGame.FloodNeighbours | Casino_agurez_source.py:133-139 | From a revealed zero cell, the offset loops leave all eight in-grid neighbours revealed, and the fill stays sound. |
| Minesweeper.MinesweeperGame.FloodNeighbour | Casino_agurez_source.py:134-139 | One offset step (skipping 0,0) keeps the fill sound and reveals the next neighbour in row-major offset order. |
| Minesweeper.MinesweeperGame.CountRevealed | Casino_agurez_source.py:154-159 | The row-by-row count equals the number of revealed cells. |
| Minesweeper.MinesweeperGame.CheckWinCondition | Casino_agurez_source.py:152-165 | If the revealed cells number rows * cols - mines, the game is over and won. Otherwise both flags are unchanged. |
| Minesweeper.MinesweeperGame.WinIffAllSafeRevealed | Casino_agurez_source.py:152-165 | When no revealed cell is a mine, the count test of the win check holds exactly when every mine-free cell is revealed. |
| Minesweeper.MinesweeperGame.RevealCell | Casino_agurez_source.py:92-112 | Preserves the game invariant. Returns false and changes nothing when the game is over, the position is off the grid, or the cell is revealed or flagged. Otherwise firstClick ends. A first click on a mine, when some other mine-free cell exists, moves exactly that mine to such a cell, so the click is safe. In every other case the mines and the board are unchanged. A click on a mine loses (over, not won, no reveal). A safe click reveals the cell and keeps every earlier reveal, and the reveal is a sound fill from the clicked cell. A numbered cell reveals only itself. The game is then won, and over, exactly when every mine-free cell is revealed. |
| Minesweeper.MinesweeperGame.ToggleFlag | Casino_agurez_source.py:141-150 | Returns false and changes nothing when the game is over, the position is off the grid, or the cell is revealed. Otherwise it flips that cell's flag and no other. Only the flag grid may change, and the game invariant is kept. |
| Minesweeper.MinesweeperGame.IsGameWon | Casino_agurez_source.py:174-175 | In a valid game, won implies over. |
| Gambling.GamblingSystem.constructor | Casino_agurez_source.py:179-182 | Bankroll 100.0, no stake, difficulty easy, and the ledger invariant holds. |
| Gambling.GamblingSystem.PlaceBet | Casino_agurez_source.py:184-194 | Out of range exactly when the amount is below MIN_BET or above MAX_BET. Insufficient funds exactly when it is in range and above the bankroll. On success the stake and difficulty are recorded. The bankroll never moves, and the ledger invariant is kept. |
| Gambling.GamblingSystem.WinGame | Casino_agurez_source.py:196-210 | An unknown recorded difficulty fails and changes nothing. Otherwise the result and the new bankroll are WinSettlement at the tier's multiplier: the whole payout, bet * multiplier, is credited. The stake is cleared and the ledger invariant is kept. |
| Gambling.GamblingSystem.LoseGame | Casino_agurez_source.py:212-224 | The result is LossSettlement and the stake is cleared. Under the ledger invariant the bankroll stays non-negative. |
| Gambling.WinSettlement | Casino_agurez_source.py:198-201 | As written: the payout is bet * multiplier, the reported profit is the payout less the stake, and the bankroll rises by the profit plus the stake, that is by the whole payout. |
| Gambling.IntendedWinSettlement | Casino_agurez_source.py:196-210 | Corrected: the bankroll rises by exactly the reported profit, bet * (multiplier - 1), so a positive bet at a multiplier above 1 always gains. |
| Gambling.LossSettlement | Casino_agurez_source.py:212-216 | The loss is the stake, and bankroll = new bankroll + loss (no clamp at zero). |
| Blackjack.Demotions | Casino_agurez_source.py:292-294 | The number of aces demoted is at most the number of aces. After it the total is at most 21 unless every ace was demoted. It is the fewest that suffice: one fewer would still bust. |
| Blackjack.Score | Casino_agurez_source.py:281-295 | The hand value is one of the possible counts (the total with some number of aces, from none to all, counted as 1) and is the best count: at least every ace-count choice that stays within 21, and never above 21 when one exists. When it exceeds 21, every ace counts as 1. |
| Blackjack.HandValue | Casino_agurez_source.py:281-295 | The game's sum-then-demote loops return exactly Score of the hand. |

## Left out

- The Tkinter interface (lobby, Minesweeper window, Blackjack window, display refreshes), the slot machine (a
  background thread with sleeps and sound), Blackjack deck building, shuffling and dealing, and the module's packaging
  tail. They are presentation, concurrency or randomness, not game logic.
- Random choice: the mine positions and the relocation index are parameters, as described above. The model does not
  claim any distribution.
- Floating point: money and multipliers are exact reals, so the model has no rounding.
- Minesweeper.MinesweeperGame.constructor: the table lookup with an unknown difficulty raises in the program. Here a
  known difficulty is a precondition, and the mine positions must be distinct, in the grid, and as many as the tier's
  mine count, which is what the random draw guarantees.
- Flags do not stop the flood fill, as in the program. A flagged cell next to a revealed zero cell is revealed and keeps
  its flag. The model keeps this behaviour and states nothing about flags after a fill.
- Minesweeper.MinesweeperGame.IsValidPosition and Minesweeper.MinesweeperGame.IsGameOver are plain accessors with no
  contract of their own. IsValidPosition appears in the contracts of FloodFill, FloodNeighbours, FloodNeighbour,
  EnsureSafeFirstClick, RevealCell (through RevealBlocked) and ToggleFlag. IsGameOver appears only in IsGameWon's
  contract. No contract in Config, Grid, Gambling or Blackjack uses either.
- Blackjack.Rank replaces the rank strings "2"..."10", "J", "Q", "K", "A" with a datatype whose number ranks carry a
  face value from 2 to 10, so a rank string that `int()` cannot parse does not arise. The suit is carried but unused, as in the program.
- Gambling.GamblingSystem.WinGame and Gambling.GamblingSystem.LoseGame settle whatever stake is recorded, zero included.
  There is no "no active bet" error, because the program has none.
- Gambling.GamblingSystem.PlaceBet reports a BetOutcome instead of the program's message text.

## Findings

| source | as written | input that shows it | evidently intended | confidence | as-written member | corrected member |
|---|---|---|---|---|---|---|
| Casino_agurez_source.py:196-210 | `win_game` adds the whole payout, bet * multiplier, to the bankroll, although `place_bet` never took the stake out of it. | Bankroll 100.0, a bet of 10.0 on easy (multiplier 1.5), then a win: the result reports a profit of 5.0 but the bankroll becomes 115.0 (lemma Gambling.WinCreditsUndebitedStake). | The bankroll rises by the reported profit, to 105.0. The window text elsewhere in the program calls the whole payout the winnings, so either line may be the slip. | low, not executed | Gambling.WinSettlement | Gambling.IntendedWinSettlement |
