# Sliding-tile puzzle engine

A Dafny model of the puzzle engine of a browser N×N sliding-tile puzzle
(the 15-puzzle on its default 4×4 board). The page keeps its whole game in
a few module-level variables: `state`, a flat array of `size*size`
integers in which `0` is the empty cell and cell `i` lies at row
`floor(i / size)`, column `i % size`; the move counter `moves`; and the
flag `isPlaying`. Four handlers change them:

- `resetGame` rebuilds the solved board `[1, 2, ..., size²-1, 0]`, clears
  the move counter and waits for a shuffle;
- `handleTileClickValue(val)` ignores clicks unless playing, finds the
  clicked tile and the empty cell with `indexOf`, and slides the tile when
  the two cells are grid-adjacent (`isAdjacent`: Manhattan distance 1),
  counting the move and running the win test; otherwise it rejects the
  click;
- `shuffle` performs 100 random slides of the empty cell (each step lists
  the in-bounds neighbours up, down, left, right and picks one at random),
  then starts play with the counter at zero;
- `checkWin` scans every cell but the last for `state[i] == i + 1` and,
  if all match, ends play.

The project has three modules:

- `Board` (board.dfy): pure index arithmetic with JavaScript's
  semantics (`Math.floor` division, `%` truncating toward zero, `indexOf`
  returning -1), the neighbour list, the permutation invariant, the solved
  board and the win test, with their lemmas.
- `Game` (game.dfy): the engine as pure transitions on a `Snapshot`
  (board, moves, playing): `Reset`, `Click`, `ShuffleStepBoard`,
  `ShuffleBoard`, `Shuffle`, and the lemmas about sessions: which clicks
  move, what a move changes, that an idle or won game ignores every click,
  that a shuffle is a walk of the empty cell that can be walked back, and
  that a shuffle can end solved and still start play.
- `Engine` (engine.dfy): class `Engine` with the fields `size`, `state:
  array<int>`, `moves` and `isPlaying`. `TryMove`, `ShuffleStep` and
  `Shuffle` update the fields and the array in place, keep the
  permutation invariant `Valid()`, and are proved equal to the matching
  `Game` transition. `Reset` (and the constructor) builds a fresh array,
  as `resetGame` assigns a new list to `state`, and is proved equal to
  `Game.Reset`. `IndexOf`, `Swap` and `CheckWin` are proved against the
  `Board` functions `PositionOf`, `Swapped` and `IsWin`.

`Math.random()` becomes an explicit value `r` with `0.0 <= r < 1.0`; the
shuffle takes a sequence of 100 of them. The board width is a
constructor parameter (at least 2); the page fixes it at 4.

A shuffle is always 100 steps, whatever the board size. A reset does not
stop a shuffle still in progress (see "Left out").

## Model

| member | source | states |
|---|---|---|
| Engine.Engine.constructor | script.js:218 | page load (the variables declared at script.js lines 12-29, then the reset call) gives a valid session equal to `Game.Reset(size)` |
| Engine.Engine.Reset | script.js:31-49 | the board is a new array holding exactly `[1, ..., size²-1, 0]`, `moves == 0`, not playing, invariant holds |
| Engine.Engine.IndexOf | script.js:90-91 | returns the first cell holding the value, or -1 when it is absent (`Board.PositionOf`) |
| Engine.Engine.Swap | script.js:117-118 | the array afterwards is the old board with the two cells exchanged, nothing else changed |
| Engine.Engine.TryMove | script.js:87-106 | the new session is `Game.Click` of the old one and the outcome is `Game.Classify`: no change while not playing or on an illegal click, a slide plus one move and the win test on a legal one; the invariant is kept and the array is the same object |
| Engine.Engine.CheckWin | script.js:161-171 | play ends exactly when every cell but the last holds its index + 1, and is otherwise untouched; the board is not changed |
| Engine.Engine.ShuffleStep | script.js:131-147 | the board becomes `Game.ShuffleStepBoard` of the old board: the empty cell exchanged with the neighbour the random value picks; the invariant is kept |
| Engine.Engine.Shuffle | script.js:122-159 | after 100 steps the session is `Game.Shuffle` of the old one: the walked board, `moves == 0`, playing |
| Board.Row | script.js:109-112 | `Math.floor(i / size)`: the row r is the one with `size * r <= i < size * r + size` |
| Board.Col | script.js:109-112 | JavaScript's `i % size`, truncating toward zero: for `i >= 0` the column c is the non-negative remainder, `i == size * Row(i) + c`; for `i <= 0` it is the negated remainder of `-i`, `-i == size * Row(-i) - c`; its magnitude is below `size` |
| Board.IsAdjacent | script.js:108-115 | adjacent cells are distinct and share a row or a column |
| Board.Neighbors | script.js:134-140 | the neighbour list has at most four entries (up, down, left, right) |
| Board.Swapped | script.js:117-118 | the exchange: cell i gets cell j's value, cell j gets cell i's value, and every other cell is unchanged |
| Board.Solved | script.js:38-42 | the board of length n that the reset loop builds ends with the empty cell 0 |
| Board.IsWin | script.js:161-165 | the scan over every cell but the last; no contract of its own, its meaning is stated by `Board.WinIffSolved` |
| Board.PositionOf | script.js:90-91 | `indexOf`: -1 exactly when the value is absent, otherwise a cell holding it with no earlier cell holding it |
| Board.PickIndex | script.js:142 | `Math.floor(Math.random() * length)` is always a valid index into the neighbour list |
| Board.CellCoords | script.js:109-112 | a cell of the board has row and column inside the grid and equals `size * row + col` |
| Board.CellAt | script.js:109-112 | the cell at (row, col) has exactly that row and column |
| Board.SwappedTwice | script.js:117-118 | exchanging the same two cells twice restores the board |
| Board.AdjacencyShape | script.js:108-115 | adjacency is symmetric, never holds for a cell and itself, and never for a diagonal pair |
| Board.MissingNotAdjacent | script.js:108-115 | the index -1 that `indexOf` returns for a missing value has row -1 and column -1, so it is adjacent to no cell of the board and such a click is rejected |
| Board.AdjacentIffNeighbor | script.js:134-140 | for two cells of the board, `isAdjacent` holds exactly when one is in the other's up/down/left/right neighbour list |
| Board.AdjacentIsNeighbor | script.js:108-115 | an adjacent cell is in the neighbour list |
| Board.NeighborIsAdjacent | script.js:134-140 | every listed neighbour is adjacent |
| Board.NeighborsOnBoard | script.js:134-142 | on a board of size at least 2 every cell has 2 to 4 neighbours, all on the board and adjacent |
| Board.PermutationInjective | script.js:29 | under the permutation invariant no value is held by two cells |
| Board.PositionOfOnBoard | script.js:90-91 | under the invariant `indexOf` finds every value 0 .. size²-1, in particular the empty cell |
| Board.PositionOfCell | script.js:90-91 | under the invariant `indexOf` of a cell's value is that cell |
| Board.PositionOfFirst | script.js:90-91 | a cell holding the value with no earlier one is what `indexOf` returns |
| Board.SwappedPermutation | script.js:117-118 | exchanging two cells keeps the multiset of values and the permutation invariant |
| Board.SolvedIsPermutation | script.js:38-42 | the board `resetGame` builds is a permutation and passes the win test |
| Board.WinIffSolved | script.js:161-168 | under the invariant, the win test (last cell unchecked) holds exactly on `[1, ..., size²-1, 0]` |
| Board.SwapBreaksWin | script.js:161-168 | exchanging any two different cells of the solved board gives a board that fails the win test |
| Game.Reset | script.js:31-49 | the reset session is valid, passes the win test, has no moves and is not playing |
| Game.Click | script.js:87-106 | a click keeps the permutation invariant |
| Game.Clicks | script.js:87-106 | any series of clicks keeps the permutation invariant |
| Game.Classify | script.js:88-93 | the click is ignored (not playing) exactly when play has not started or has ended |
| Game.ClassifyMovedIff | script.js:87-97 | a click moves exactly when playing, the value is a tile 1 .. size²-1 and its cell is in the empty cell's neighbour list |
| Game.ClickSlidesTile | script.js:90-105 | a legal move puts the tile in the old empty cell and the empty cell where the tile was, leaves every other cell alone, counts one move and ends play exactly when the board is now solved; every other click changes nothing |
| Game.ClicksWhileIdle | script.js:88 | while not playing, no series of clicks changes anything |
| Game.WonGameFreezes | script.js:161-168 | after a winning move play has ended and every later click is ignored |
| Game.ShuffleStepBoard | script.js:131-146 | a step keeps the invariant and moves the empty cell to one of its neighbours, exchanging exactly those two cells |
| Game.ShuffleBoard | script.js:128-149 | the shuffled board is a permutation |
| Game.Shuffle | script.js:149-156 | a finished shuffle is valid, playing, with the move counter at zero |
| Game.EmptyTrail | script.js:131-146 | the cells the empty cell visits form a walk from its start to its final cell in which each cell is a neighbour of the one before |
| Game.ShuffleFollowsTrail | script.js:128-149 | the shuffled board is the start board slid along the empty cell's trail |
| Game.SlideBack | script.js:146 | sliding along a walk and then along its reverse restores the board |
| Game.ShuffleReversible | script.js:123-126 | the reversed trail is again a walk between neighbouring cells starting at the final empty cell, and sliding along it returns the board the shuffle started from |
| Game.ShuffleBoardPrefix | script.js:128-149 | the shuffle of the first k + 1 random values is one more step after the shuffle of the first k |
| Game.ShuffleBoardAppend | script.js:128-149 | shuffling with `xs` and then with `ys` is shuffling with `xs + ys` |
| Game.SlideIsClick | script.js:87-97 | while playing, moving the empty cell into a listed neighbour is a legal click on the tile there, with the same board result |
| Game.SlideAlongEmpty | script.js:146 | sliding along a walk that starts at the empty cell keeps the invariant and leaves the empty cell at the walk's last cell |
| Game.WalkIsClicks | script.js:87-97 | along a walk between neighbouring cells, before step k the empty cell is at the k-th cell, and clicking the tile in the next cell is a legal move that gives the next board |
| Game.ShuffleUndoneByClicks | script.js:87-97 | every step back along a shuffle's reversed trail is a legal click while play is on: before step k the empty cell is at back[k], and clicking the tile at back[k + 1] gives the next board (a click that reaches the solved board ends play, see `Game.WalkClicks`) |
| Game.WalkTiles | script.js:87-97 | the tiles to click along a walk: one per step, so one fewer than the cells of the walk |
| Game.NeighborClick | script.js:87-105 | while playing, clicking the tile next to the empty cell moves the empty cell there, and if play ends the board is solved |
| Game.WalkClickStep | script.js:87-105 | the first click along a walk from the empty cell is legal, moves the empty cell to the walk's next cell, and leaves the rest of the walk to the rest of the tiles |
| Game.WalkClicks | script.js:87-105 | clicking the tiles along a walk of neighbouring cells from the empty cell, while playing, either walks the empty cell to the walk's end or stops early on the solved board with play ended, since later clicks are ignored |
| Game.ShuffleClickedBack | script.js:122-159 | after a shuffle, clicking the tiles along the reversed trail ends on the board the shuffle started from, or earlier on the solved board with play ended |
| Game.SolvedShuffleClickedBack | script.js:212-215 | a shuffle of the solved board (as "play again" performs after its reset) can always be clicked back to the solved board |
| Game.CornerNeighbors | script.js:134-140 | the bottom-right corner's neighbours are [up, left] |
| Game.AboveCornerNeighbors | script.js:134-140 | the cell above the bottom-right corner has the neighbours [up, down, left] |
| Game.StepUp | script.js:131-146 | with the empty cell in the bottom-right corner, the random value 0.0 exchanges it with the cell above |
| Game.StepDown | script.js:131-146 | with the empty cell just above the corner, the random value 0.5 exchanges it back with the corner |
| Game.UpAndBackStep | script.js:131-146 | from any board whose empty cell is in the bottom-right corner, the random values 0.0 then 0.5 move the empty cell up and back, restoring the board |
| Game.UpAndBackSnoc | script.js:128-129 | the up-and-back values for one more pair are the old ones followed by 0.0, 0.5 |
| Game.UpAndBackSolved | script.js:128-149 | a board that one up-and-back pair of random values restores is restored by any number of such pairs |
| Game.SolvedEmptyCorner | script.js:38-42 | on the board the reset builds, `indexOf(0)` is the last cell |
| Game.SolvedUpAndBack | script.js:128-149 | the solved board is restored by any number of up-and-back pairs of random values |
| Game.ShuffleCanEndSolved | script.js:149-156 | a full 100-step shuffle of the solved board can end on exactly the solved board, and play still starts, since the shuffle never runs the win test |
| Game.SlidOnceBoard | script.js:117-118 | the 4×4 solved board with cells 15 and 11 exchanged is `[1, ..., 11, 0, 13, 14, 15, 12]` |
| Game.ShuffleStepExample | script.js:131-146 | on the 4×4 solved board the random value 0.25 picks the cell above the corner and gives `[1, ..., 11, 0, 13, 14, 15, 12]` |
| Game.ClickBackToSolved | script.js:87-97 | on that board, clicking tile 12 while playing restores the solved board, counts one move and ends play |

## Left out

- Rendering (`renderBoard`, tile elements, the `correct` and `error` classes, the win overlay, `showWinMessage`): presentation only.
- The timer (`startTimer`, `stopTimer`, `seconds`, the mm:ss display in `updateDisplay`): wall-clock effects. Resetting `seconds` to 0 in `resetGame` and `shuffle` is therefore not modelled either.
- The 10 ms `setInterval` pacing of the shuffle: the model runs the 100 steps synchronously. So it does not capture that a click or a reset can interleave with an unfinished shuffle, nor that a reset never cancels a running shuffle interval. Nor does it capture a second Shuffle press while a shuffle runs: the button handler has no guard, so a second interval runs beside the first, play starts when the first one finishes while the second keeps sliding tiles, and no win test runs for those slides.
- `Math.random`: replaced by an explicit value in [0, 1) per step. The index is `floor(r * length)` computed on exact reals, so floating-point rounding of the product is not modelled.
- The variable `emptyIndex` (set to 15 and never read by the move or shuffle logic): the model always locates the empty cell with `indexOf`.
- Button and tile event wiring: click handlers call the modelled operations; a tile only ever reports a value 1 .. size²-1, but `TryMove` accepts any integer.
- Board size: the page fixes `size = 4` and has no way to change it; the model takes any size of at least 2 at construction.
