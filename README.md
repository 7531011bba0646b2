# Sliding puzzle and playlist, modelled in Dafny

The program is a browser page with two parts. The first is an N x N sliding
puzzle (N = 3 by default): a tile next to the blank slides into it when clicked,
a shuffle walks the blank around at random, and the code has a `solve` routine
that nothing on the page calls. The second is a small music player with a cursor over six tracks,
four of which are listed at a time, and an `m:ss` time label.

The model keeps the state and the integer logic of both parts and leaves out the
page itself.

- `grid.dfy`, module `Grid`. This is the pure model of a board, a sequence of
  `Tile(id, row, col, isBlank)` records. It covers:
  - the fresh board, the board invariant and the solved check;
  - the swap of a tile with the blank;
  - the neighbour list and candidate list of one shuffle step;
  - sequences of moves;
  - the shuffle walk, as a function of the random draws.
- `puzzle.dfy`, module `PuzzleGame`. The class `Puzzle` holds the module-level
  state of the page: `PUZZLE_SIZE` as `n`, `tiles`, `blankTile` as the index
  `blank`, and `moves`. Its methods are `createTiles`, `tileClick`,
  `shuffleAll`, `solve`, `checkSolved`, and the new-game / replay sequence. Each
  is proved against the functions of `Grid`. Nothing in the page calls
  `solve`: the show-solution button only toggles the preview image
  (script.js:186-188). `Puzzle.Solve` models the function as defined.
- `player.dfy`, module `Player`. It covers:
  - the playlist cursor `startIndex`, held in the class `Playlist`, and its
    next / previous / click / end-of-song updates;
  - the four visible entries of `renderPlaylist`;
  - `formatTime` on whole seconds, with a parser for its labels.
- `arith.dfy` (module `Arith`) holds facts about `/` and `%` by a positive
  divisor. `wrappers.dfy` (module `Wrappers`) holds `Option`.

Modelling choices:
- **The blank reference.** `blankTile` is modelled as an index into `tiles`. No
  operation reorders the array: it is built in id order, and every later change
  only updates fields. So tile k always carries id k + 1 (`IdsInOrder`). The
  blank is always the last tile (`blank == LastIndex(n)`).
- **Sorting in `solve`.** Because of the id order, the `tiles.sort` by id at the
  start of `solve` leaves the array as it is.
- **Randomness.** Each `Math.random()` draw of the shuffle is an index chosen
  by the caller. `ChoicesFit` requires every index to lie below the number of
  candidates at its step.
- **Clicks.** A click on a tile element is identified by the tile's index.

## Model

| member | source | states |
|---|---|---|
| Grid.Distance | script.js:87-90 | The distance is 0 exactly when the two tiles share a cell. It is 1 exactly when they are side by side in a row or a column. This is the adjacency test of clicks and of the shuffle's neighbour filter (script.js:123). |
| Grid.SolvedGrid | script.js:44-77 | The fresh board has N² tiles. Tile k has id k + 1 and stands on the cell its id names, and only the last tile is blank. |
| Grid.AtHomeIsCell | script.js:217-222 | The solved check's test on one tile, row ⌊(id-1)/N⌋ and column (id-1) mod N, holds exactly when the tile stands on the cell whose row-major number is id - 1. `IsSolved` is this test on every tile. |
| Grid.SolvedGridAt | script.js:44-77 | On the fresh board, the tile at cell number row*N+col has id row*N+col+1 and stands on (row, col). It is the blank exactly when (row, col) is the bottom-right cell. |
| Grid.SolvedGridWellFormed | script.js:44-77 | The fresh board satisfies the board invariant. It has N² tiles in id order, with the last one as the only blank, and that last tile stands on the bottom-right cell. All cells are on the board and none is shared. |
| Grid.SolvedGridIsSolved | script.js:215-224 | The solved check holds on a freshly created board. |
| Grid.SolvedIffFresh | script.js:215-224 | On any board satisfying the invariant, the solved check holds if and only if the board equals the fresh one. |
| Grid.EveryCellOccupied | script.js:93-100 | On N² tiles with in-range, pairwise distinct cells, every cell of the board holds a tile, so the tile cells are a bijection onto the board (pigeonhole over cell numbers). |
| Grid.Swap | script.js:93-100 | The chosen tile takes the blank's (row, col) and the blank takes the tile's. Ids and the blank flag are unchanged, and every other tile is unchanged. Swapping the blank with itself changes nothing. |
| Grid.SwapTwice | script.js:93-100 | Swapping the same tile with the blank twice restores the board. |
| Grid.SwapKeepsWellFormed | script.js:136-143 | Swapping any tile with the blank keeps the board invariant: cells stay in range and distinct, ids and the blank stay put. |
| Grid.Neighbours | script.js:122-124 | The first filter lists, in array order, exactly the indices whose tiles are at Manhattan distance 1 from the blank. |
| Grid.Without | script.js:128 | On an increasing list such as the neighbour list, the second filter keeps exactly the elements other than the previously moved tile, in their order. |
| Grid.Candidates | script.js:127-130 | With no previous move the candidates are the neighbours. Otherwise they are the neighbours other than the previous tile. When that tile is the only neighbour, the candidates are that tile alone, and that is the only case where it is a candidate. The candidates are in array order and each is at distance 1 from the blank. |
| Grid.TwoNeighbours | script.js:122-124 | On a board of side at least 2 the blank always has at least two neighbours. |
| Grid.NeverUndoTile | script.js:127-130 | On a board of side at least 2 the previously moved tile is never a candidate, so the fallback to it never fires. |
| Grid.CandidatesNonEmpty | script.js:133 | On a board of side at least 2 every step has a candidate to draw from. |
| Grid.ZeroDrawsFit | script.js:133 | On a board of side at least 2, a shuffle of any length whose draws all pick the first candidate fits `ChoicesFit`. `ChoicesFit` is the range of `Math.floor(Math.random() * neighbors.length)` at each step. So a shuffle of six or seven steps (script.js:183, 197, 206, 246) exists on every such board. |
| Grid.OneTileNoDraws | script.js:119-136 | On the one-tile board the blank has no candidate, so no non-empty draw sequence fits. |
| Grid.ApplyMovesKeepsWellFormed | script.js:119-153 | Any sequence of swaps with the blank keeps the board invariant. |
| Grid.ReplayInverse | script.js:136-143 | The reverse of a legal move sequence is itself legal. Applied after the sequence, it restores the starting board. |
| Grid.WalkPath | script.js:119-153 | The tiles a shuffle moves form a legal path: one move per draw, each swapping the blank with a tile next to it. |
| Grid.WalkStep | script.js:119-153 | One shuffle step draws a candidate, swaps it with the blank and records it as the last moved tile. The rest of the walk continues from there. |
| Grid.WalkNeverUndoes | script.js:127-152 | On a board of side at least 2 no shuffle step moves the tile moved by the step before it. |
| Grid.ShuffledIsSolvable | script.js:181-184 | A shuffled fresh board is reachable from the fresh board by exactly as many legal moves as draws. Replaying those moves backwards is legal and solves it. |
| Grid.ThreeByThreeExample | script.js:85-100 | On the fresh 3 x 3 board, tile 6 is above the blank. Clicking it swaps the two cells and the board is no longer solved. |
| PuzzleGame.Puzzle.constructor | script.js:3-15 | A session of side `size` starts on the fresh board with no moves. The constructor is the initial state (empty tiles, no blank, zero moves) followed by the first `createTiles` (script.js:34-79). |
| PuzzleGame.Puzzle.CreateTiles | script.js:34-79 | The board is rebuilt as the fresh board, the blank is the last tile (id N², cell (N-1, N-1)) and `moves` is 0. |
| PuzzleGame.Puzzle.PushRow | script.js:46-76 | The inner loop pushes the N fresh tiles of one row. It marks the blank on the bottom row and leaves the blank reference alone on every other row. |
| PuzzleGame.Puzzle.SwapWithBlank | script.js:93-100 | The tiles become the swap of the chosen tile with the blank. The blank index and `moves` stay the same. |
| PuzzleGame.Puzzle.TileClick | script.js:82-112 | A click on the blank, or on a tile whose distance from the blank is not 1, changes no tile and leaves `moves` alone. A click on an adjacent tile swaps it with the blank and increments `moves`. It reports whether the board is now solved. The invariant is kept in both cases. |
| PuzzleGame.Puzzle.ShuffleAll | script.js:115-159 | The board becomes the walk of the draws applied to the old board. The invariant is kept and `moves` is 0. |
| PuzzleGame.Puzzle.Solve | script.js:162-178 | From any board satisfying the invariant, the result is the fresh board, the blank is the id-N² tile and `moves` is 0. So the solved check holds (Grid.SolvedGridIsSolved). |
| PuzzleGame.Puzzle.SolveRow | script.js:166-175 | The inner loop puts the N tiles of one row back on that row's cells, keeping the ids, the one blank and the tile count. The tiles of later rows are left as they were. |
| PuzzleGame.Puzzle.CheckSolved | script.js:215-224 | Returns true exactly when every tile has row ⌊(id-1)/N⌋ and column (id-1) mod N. It changes nothing. |
| PuzzleGame.Puzzle.NewGame | script.js:181-184 | The new-game button builds a fresh board, then shuffles it with the given draws. The blank is the last tile and `moves` is 0. |
| Player.NextIndex | script.js:377-381 | The next cursor lies in [0, len). It is one further on, wrapping from the last track to the first. |
| Player.PrevIndex | script.js:384-388 | The previous cursor lies in [0, len). It is one back, wrapping from the first track to the last. |
| Player.PrevUndoesNext | script.js:377-388 | "Previous" undoes "next", and "next" undoes "previous". |
| Player.NextPressesMod | script.js:377-381 | Pressing "next" k times from cursor i lands on (i + k) mod len, so len presses come back to i. |
| Player.Window | script.js:333-344 | The playlist shows four entries. Each entry names a valid track and carries that track's title, and only the first is active. |
| Player.WindowFollowsNext | script.js:336-342 | The first entry is the cursor, and each later entry is what "next" gives from the entry before it. |
| Player.WindowScrollsOnNext | script.js:377-381 | After "next", the first three entries are the previous window's last three. |
| Player.WindowDistinct | script.js:336-342 | With at least four tracks the four entries name four different tracks. |
| Player.WindowWraps | script.js:336-342 | With fewer than four tracks the window wraps round to the current track. |
| Player.ShippedWindowDistinct | script.js:310-317 | With the six shipped tracks the window always lists four different songs. |
| Player.Playlist.constructor | script.js:330 | The cursor starts at the first track. |
| Player.Playlist.Next | script.js:377-381 | The cursor moves to NextIndex of its old value and stays in range. The end of a song (script.js:400-404) does the same. |
| Player.Playlist.Prev | script.js:384-388 | The cursor moves to PrevIndex of its old value and stays in range. |
| Player.Playlist.Select | script.js:391-397 | Clicking entry i moves the cursor to the track that entry lists, which then heads the new window. |
| Player.Minutes | script.js:425 | `Math.floor(sec / 60)` is a single digit for fewer than 600 seconds. |
| Player.Seconds | script.js:426 | The seconds within the minute are below 60, and minutes times 60 plus seconds gives `sec` back. |
| Player.FormatTime | script.js:424-428 | The label is at least four characters long and has the colon third from the end. Below ten minutes it is exactly four characters, m:ss. |
| Player.ShortLabel | script.js:424-428 | A label with a one-digit minutes field is four characters long. |
| Player.NatToString | script.js:426 | The numeral of x is a non-empty string of digits with no leading zero. It has one digit below 10 and two between 10 and 99. |
| Player.PadStart | script.js:426 | The result has length max(len, width), ends with the input, and starts with pad characters. |
| Player.SecondsField | script.js:426 | For s < 60 the padded seconds field is exactly two digits worth s. |
| Player.FormatTimeRoundTrip | script.js:424-428 | The label of `sec` whole seconds reads back as `sec`. It is a numeral, a colon, and exactly two digits: the minutes times 60 plus those seconds, which are below 60, give `sec`. |

## Left out

- Every DOM effect: element creation, CSS transforms and classes, `replaceChildren`, the moves display and the playlist `<li>` nodes. Only the values they show are modelled.
- The pixel and percentage geometry (`PUZZLE_PIXELS`, `TILE_SIZE`, background positions). These are floating-point rendering values.
- `tryInit`, the image loader. It is asynchronous image loading. The start it triggers, `createTiles()` then `shuffleAll()` with the default seven draws, is `Puzzle.NewGame` with seven draws.
- The confetti, the congratulations modal and its timer (`startTime`, `Date.now`, `showCongrats`, `hideCongrats`, `lastSolved`), and the solution-preview toggle. These depend on the clock, randomness and the DOM. `Puzzle.TileClick` only reports that the board is solved.
- Audio playback: `loadCurrent`, `playCurrent`, play/pause, `unlockAudio`, the progress bar, seeking and the congratulations play button. These are browser media calls with floating-point times. The track URLs are kept as data only.
- NatToString and FormatTime use unbounded naturals. JavaScript numbers are doubles: integers are exact only up to 2^53, and `toString` switches to exponent notation from 10^21 on. No elapsed time comes near either bound.
- `formatTime` on fractional seconds (`Math.floor` of a float). Only whole seconds are modelled, which is what the congratulations timer passes after `Math.round`.
- `setPuzzleSize`. Nothing calls it. The side `n` is fixed when a `Puzzle` is constructed.
- Boards of side 0 are not modelled. The code has no size check: nothing rejects a side below 2. With N = 0, `createTiles` pushes no tile and never assigns `blankTile`, which keeps its previous value (null before the first board). The model requires N >= 1.
- Shuffles on the one-tile board. In the code, a shuffle of one or more steps on N = 1 finds no neighbour, so `chosen` is undefined and reading its row throws (script.js:133-136). The new-game and replay buttons would throw there. The model excludes this case through `ChoicesFit`: on N = 1 only the empty draw sequence fits (`Grid.OneTileNoDraws`). For N >= 2, `Grid.CandidatesNonEmpty` and `Grid.ZeroDrawsFit` show that every step has a candidate.
- Puzzle.Solve: requires the board invariant, so it does not cover arbitrary tile arrays. Every board the program can reach satisfies the invariant, and under it the initial sort by id changes nothing.
- `Math.random()` itself. Each draw is the index it selects, supplied by the caller.
- Finding the clicked tile by its DOM element (`tiles.find`). The click names the tile's index instead.
