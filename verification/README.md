# 2048 rules engine in Dafny

This project models the rules engine of the 2048 sliding-tile game in
`script.js`: the `Tile` and `Grid` classes and the move logic of `Game2048`.
A grid is an immutable `seq<seq<Option<Tile>>>` addressed as `cells[x][y]`.
A tile keeps its position, its value, and the two per-move annotations of
the source: `previousPosition`, saved by `prepareTiles`, and `mergedFrom`,
the pair of tiles a merge consumed.

`move` is modelled as a pure fold. `Moves.SweepRows` and `Moves.SweepRow`
mirror the two nested `forEach` loops over the traversal order, and
`Moves.Visit` is the loop body. The fold returns the new grid, the score
gained, the `moved` flag and the win flag. `Games.Move` wraps it:

- it does nothing on a terminated game;
- it adds the score and the win flag;
- after a move that moved something, it spawns a tile and recomputes `over`.

`Math.random` is replaced by a `Games.Draw` parameter. Its `pick` field
selects the empty cell: `Math.floor(Math.random() * n)` becomes `pick % n`.
Its `four` field stands for the one-in-ten draw that makes the new tile a 4.

Most properties of the slide come from one invariant, `MoveProofs.SweepInv`,
which holds after every visited cell:

- cells not yet visited are as `prepareTiles` left them;
- every visited tile is packed against the wall it moves towards;
- no visited tile could still merge into the tile ahead of it;
- the position invariant holds and merge products are single merges;
- the value sum, the tile count plus the merge count, the score, the win
  flag and the moved flag all balance against per-cell totals
  (`Tally.Total`).

The traversal order is farthest-first because `Moves.BuildTraversals` gives
the `k`-th entry of each axis rank `k`. This is what makes the invariant
survive each visit.

Files:

- `wrappers.dfy`: `Option`.
- `tiles.dfy`: `Tile` and tile values.
- `grid.dfy`: `Grid`.
- `tally.dfy`: totals over the cells.
- `moves.dfy`: vectors, traversals, the farthest-cell search and the pass.
- `move_proofs.dfy`: the pass invariant.
- `slides.dfy`: properties of one slide.
- `game.dfy`: the `Game2048` state and `move`.
- `game_proofs.dfy`: properties of a move and the game invariant.

## Model

| member | source | states |
|---|---|---|
| Tiles.NewTile | script.js:3-9 | A new tile sits at the given position and carries neither annotation. A zero value becomes 2, as `value \|\| 2` does. |
| Tiles.SavePosition | script.js:11-13 | The saved previous position is the tile's current position. Position, value and merge record are unchanged. |
| Tiles.UpdatePosition | script.js:15-18 | The tile moves to the given position and keeps its value and annotations. Moving to its own position changes nothing. |
| Tiles.SerializeTile | script.js:20-25 | The serialised tile holds the tile's position and value. |
| Tiles.SerializeTileForgetsAnnotations | script.js:20-25 | Two tiles serialise alike if and only if they agree on position and value. |
| Tiles.DoubleTileValue | script.js:256-257 | Doubling a power of two that is at least 2, as a merge does, gives another such value. |
| Tiles.StartValueIsTileValue | script.js:142 | The spawn values 2 and 4 are tile values. |
| Grids.Empty | script.js:30-44 | A new grid of size n is n by n, every cell is empty, and it satisfies the position invariant. |
| Grids.CellContent | script.js:67-73 | A tile is returned only for in-bounds positions. In bounds it is the stored cell. |
| Grids.WithinBounds | script.js:54-57 | A position is on the board exactly when both coordinates lie in 0 to size - 1. |
| Grids.Occupied | script.js:63-65 | A cell is occupied exactly when it holds a tile, so an off-board cell is never occupied. |
| Grids.Available | script.js:59-61 | A cell is available exactly when it is not occupied. |
| Grids.AvailableOffBoard | script.js:59-73 | An off-board position reads as empty, so it counts as available. |
| Grids.InsertTile | script.js:46-48 | The tile lands on the cell its own position names. No other cell changes. |
| Grids.RemoveTile | script.js:50-52 | The cell the tile's position names becomes empty. No other cell changes. |
| Grids.SetCell | script.js:46-52 | The single-cell write of `insertTile` and `removeTile`, which `moveTile` also uses: the written cell holds the new content, and every other cell is unchanged. |
| Grids.SetCellAgain | script.js:187-191 | Writing a cell back with its own content changes nothing. Two writes to one cell equal the second write. |
| Grids.AvailableCells | script.js:75-83 | A position is listed if and only if it is in bounds and empty. The list is strictly increasing in row-major order, so each cell appears once. |
| Grids.AvailableRows | script.js:75-96 | The outer loop of `eachCell` from row x on: a position is listed if and only if it is in bounds, empty and in row x or later. The list is in row-major order. |
| Grids.AvailableInRow | script.js:75-96 | The inner loop of `eachCell` over row x from column y on: a position is listed if and only if it is in row x, in column y or later, in bounds and empty. The list is in row-major order. |
| Tally.AvailablePlusTiles | script.js:75-83 | The number of listed empty cells plus the number of tiles is size times size. |
| Grids.RandomAvailableCell | script.js:85-88 | No cell is picked exactly when the board is full. A picked cell is in bounds and empty. |
| Grids.EveryEmptyCellCanBePicked | script.js:85-88 | Every in-bounds empty cell is the pick for some random draw. |
| Grids.SerializeGrid | script.js:98-107 | The size is kept. `cells[x][y]` is null exactly for empty cells, and otherwise holds position (x, y) and the tile's value. |
| Grids.SerializeGridIsBoard | script.js:98-107 | Two valid grids serialise alike if and only if they hold the same values in the same cells. |
| Moves.GetVector | script.js:197-205 | Each direction maps to a unit vector: Up is x -1, Down is x +1, Right is y +1, Left is y -1. |
| Moves.GetVectorIsBijective | script.js:197-205 | Distinct directions give distinct vectors, and every unit vector is the vector of some direction. |
| Moves.BuildTraversals | script.js:207-219 | Each axis lists every index below size once. Entry k has rank k, so an axis runs backwards exactly when the vector's component on it is +1. |
| Moves.FindFarthestPosition | script.js:221-233 | `next` is `farthest` plus the vector and is off the board or occupied. `farthest` is the start cell or an empty cell on the same line ahead of it. Every cell passed on the way is in bounds and empty. |
| Moves.PrepareTiles | script.js:178-185 | Afterwards no tile has a merge record and each has saved its own position. Occupancy, positions, values and the position invariant are kept. |
| Moves.PrepareTilesIdempotent | script.js:178-185 | Preparing twice is the same as preparing once, and a grid that is already prepared is left as it is. |
| Moves.MoveTile | script.js:187-191 | The target cell holds the relocated tile and the old cell becomes empty. Other cells are unchanged. Moving a tile onto its own cell changes nothing. |
| Moves.CanMerge | script.js:256 | The merge rule: the blocking cell holds a tile of the same value that is not already a merge product. `Slides.SlideMergesMaximal` states that the pass applies it wherever it allows. |
| Moves.MergedTile | script.js:257-258 | The product sits at the target with no saved position. For two equal non-zero values it holds their sum, and it stays a tile value. Its merge record names the moving tile, moved onto the target cell with its value, and the target. |
| Moves.Visit | script.js:247-275 | One loop body keeps the position invariant, and it never clears the moved or won flags. |
| MoveProofs.SweepInvInit | script.js:241-243 | At the start of the pass the invariant holds: nothing is visited, the score is 0 and both flags are false. |
| MoveProofs.VisitKeepsInv | script.js:247-275 | Visiting the cell of ranks (i, j) keeps the pass invariant, whether the cell is empty, its tile merges, slides or stays. |
| MoveProofs.MergeKeepsInv | script.js:256-267 | The merge branch keeps the invariant. The product replaces the target and the moving tile's cell empties. The score rises by the product's value, and the won flag is raised exactly for 2048. |
| MoveProofs.SlideKeepsInv | script.js:268-273 | The slide branch keeps the invariant. The tile reaches the farthest free cell, which is packed, and the moved flag is raised. |
| MoveProofs.SweepRowsKeepsInv | script.js:245-277 | The two nested loops keep the invariant until every cell has been visited. |
| Moves.SweepRow | script.js:246-276 | The inner loop keeps the position invariant and the board size, and never clears the moved or won flags. |
| Moves.SweepRows | script.js:245-277 | The outer loop keeps the position invariant and the board size, and never clears the moved or won flags. |
| Moves.Slide | script.js:238-277 | The prepare-then-sweep part of `move` keeps the position invariant and the board size. What it computes is stated by the `Slides` lemmas. |
| Slides.SlideConservesValues | script.js:256-269 | After the slide, before the spawn, the value sum of the board is unchanged. |
| Slides.SlideCountsMerges | script.js:256-263 | The tile count after the slide plus the number of merges equals the tile count before it. |
| Slides.SlideScoresMerges | script.js:265 | The score gained equals the sum of the values of the tiles that merges produced. |
| Slides.SlideMergesOnce | script.js:178-185 | After the slide every merge product was made from two unmerged tiles of equal value, both recorded on its cell. Values stay powers of two and the position invariant holds. |
| Slides.SlideMergesMaximal | script.js:256-263 | After the slide, two neighbouring tiles along the move's direction hold equal values only if one of them is a merge product of this slide: every merge the rule allows is made. |
| Slides.SlideTwoTwoLeft | script.js:245-275 | On a 2 by 2 board with 2 and 2 in the first row, moving left leaves one merged 4 on the wall side and the rest empty, scores 4, moves and does not win. |
| Slides.SlidePacks | script.js:207-219 | After the slide no tile has an empty in-bounds cell next to it in the move's direction. |
| Slides.SlideWinsExactly | script.js:267 | The slide's win flag is raised if and only if the board holds a merge product worth 2048. |
| Slides.SlideMovedExactly | script.js:272-274 | `moved` is true if and only if some tile left its cell or was produced by a merge. |
| Slides.SlideNoOp | script.js:241-243 | A slide that does not move leaves the prepared grid unchanged, gains no score and does not win. |
| Slides.SlideMovedLeavesRoom | script.js:279-280 | A slide that moves leaves at least one empty cell for the spawn. |
| Slides.StuckSlideIsNoop | script.js:298-321 | On a full board with no equal neighbours in direction d, the slide only prepares the tiles and does not move. |
| Games.SpawnValue | script.js:142 | The spawned value is 2 or 4. It is 4 exactly when the one-in-ten draw says so. |
| Games.DirectionCodesRoundTrip | script.js:197-205 | Direction numbers 0 to 3 and the four directions correspond one to one. |
| Games.DirectionOf | script.js:198-203 | The numbers 0 to 3 name directions, and no other number does. |
| Games.AddRandomTile | script.js:140-146 | A full board is unchanged. Otherwise one in-bounds empty cell gains a fresh 2 or 4 and nothing else changes. The tile count rises by one and the value sum by the spawned value. |
| Games.AddTiles | script.js:134-138 | Each draw adds one tile while there is room, so the count becomes the smaller of the old count plus the draws and size times size. |
| Games.NewGame | script.js:112-125 | A new game has the given size, or 4 when none is given. It holds min(2, size times size) tiles, all tile values, and starts with no score and no flags. |
| Moves.AdjacentEqual | script.js:303-312 | The test for one tile and one direction: the tile and its neighbour in that direction both exist and hold the same value. |
| Games.IsGameTerminated | script.js:290-292 | The game is over, or it is won and the player has not chosen to continue. |
| Games.TileMatchesAvailable | script.js:298-321 | Returns true if and only if some tile has an orthogonal neighbour of the same value. |
| Games.MatchesFrom | script.js:301-318 | The two cell loops from cell (x, y) on return true if and only if some cell at or after (x, y) in row-major order holds a tile with an equal neighbour. |
| Games.MatchesAt | script.js:306-315 | The direction loop from direction number `code` on returns true if and only if some direction numbered `code` or higher has an equal neighbour. |
| Games.MovesAvailable | script.js:294-296 | Returns false if and only if there is no empty cell and no pair of equal neighbours. |
| Games.Move | script.js:235-288 | The position invariant and tile values are kept. The score never decreases, and `over` and `won` are never cleared. |
| Games.KeepPlaying | script.js:329-332 | Sets only the flag. A game that is not over is no longer terminated. |
| Games.Serialize | script.js:168-176 | The serialised game holds the serialised grid, the score and the three flags. |
| GameProofs.MoveWhenTerminated | script.js:236 | A move on a terminated game (over, or won without continuing) returns the game unchanged. |
| GameProofs.MoveNoOp | script.js:279-287 | When nothing moves, no tile is spawned, and score, `over` and `won` stay. The board and the saved state look as they did. |
| GameProofs.MoveScoresMerges | script.js:265 | The score grows by exactly the sum of the values this move's merges produced. The spawned tile adds nothing. |
| GameProofs.MoveWon | script.js:267 | After a move, `won` holds if and only if it held before or the board holds a merge product worth 2048. |
| GameProofs.MoveOver | script.js:279-284 | `over` becomes true if and only if the move moved something and left no empty cell and no pair of equal neighbours. |
| GameProofs.MoveSpawns | script.js:279-281 | After a move that moved: tiles plus merges equal the old tile count plus one, and the value sum grows by the spawned 2 or 4. |
| GameProofs.SpawnLandsOnEmptyCell | script.js:140-146 | The spawn changes only a cell that was in bounds and empty, giving it the spawned value. Every empty cell is a possible landing place. |
| GameProofs.PrepareKeepsBoard | script.js:178-185 | Preparing the tiles changes neither the visible board nor its serialised form. |
| GameProofs.NoMovesMeansStuck | script.js:294-321 | When `movesAvailable` is false, no direction moves any tile. |
| GameProofs.OverIsFinal | script.js:236 | An over game ignores every move, and in it no direction would move a tile. |
| GameProofs.MoveKeepsInv | script.js:235-288 | A move keeps the game invariant: a sane board, a non-negative score, and `over` only when no move is possible. |
| GameProofs.NewGameInv | script.js:112-125 | A new game satisfies the game invariant. |
| GameProofs.KeepPlayingKeepsInv | script.js:329-332 | Continuing after a win keeps the invariant, and a game that is not over can move again. |
| GameProofs.SerializeIsState | script.js:168-176 | Two games serialise alike if and only if their boards agree cell by cell and their score and flags agree. |

## Left out

- Input, rendering and storage (`KeyboardInputManager`, `HTMLActuator`, `LocalStorageManager`, `fakeStorage` and the persistence calls in `actuate`) are left out. They are DOM and storage I/O.
- `Math.random` is replaced by the `Games.Draw` parameter, with the cell index taken as `pick % n`. The 0.9 probability is only the boolean `four`, so the distribution is not modelled.
- `setup`, `restart` and restore are left out. Restore calls `new Grid(size, cells)`, but the `Grid` constructor (script.js:30-33) ignores its second argument, so a restored grid would be empty. There is also no deserialiser, so no serialise/deserialise round trip is claimed. `Grids.SerializeGridIsBoard` and `GameProofs.SerializeIsState` state what serialisation keeps and what it forgets.
- The constructor stores the boolean `keepPlaying` under the name of the `keepPlaying` method (script.js:123), so `this.keepPlaying.bind(this)` at script.js:131 calls `bind` on a boolean. `false.bind` is undefined, so the constructor throws a TypeError there, after the move and restart handlers are registered. The keepPlaying handler is never registered, and the field hides the method. In the program as written, the transition `Games.KeepPlaying` therefore never happens, and a won game stays terminated. The model keeps `Game.keepPlaying` as a plain flag and `Games.KeepPlaying` as the transition the method evidently intends. It does not model the registration of handlers.
- Moves are not idempotent, and no such property is claimed. A row `[2, 2, 4, _]` moved left gives `[4, 4, _, _]`, which merges again on the next move left.
- Direction numbers outside 0 to 3 are left out. `getVector` returns `undefined` for them and `move` then fails. `Games.Move` takes a `Moves.Direction`, and `Games.DirectionOf` maps the numbers 0 to 3 onto it.
- `cellContent` returns null off the board, so off-board cells count as available (`Grids.AvailableOffBoard`). `insertTile`, `removeTile` and `moveTile` write to `cells[x][y]` without a bounds check, so the model requires in-bounds positions for them. The engine only calls them with in-bounds positions.
- `positionsEqual` is datatype equality on positions. `eachCell` is the row-major recursion inside `Grids.AvailableCells`, and the sequence comprehension over every cell inside `Moves.PrepareTiles`. Neither has a member of its own.
- `Moves.Visit`, `Moves.Slide` and the grid functions take a grid that satisfies the position invariant. `Games.Move` and the `Slides` and `GameProofs` lemmas also take a grid that holds only tile values (`Slides.Sane`). The source assumes both without checking them. `GameProofs.NewGameInv` and `GameProofs.MoveKeepsInv` prove that every game reached from a new game satisfies them.
- GameProofs.NoMovesMeansStuck: only one direction of the game-over test is proved. A board with no move available cannot move. The converse is not proved: on a board that holds at least one tile and has an empty cell or equal neighbours, some direction moves a tile. Every game reached from a new game holds at least one tile. The converse fails on a board with no tiles, where `movesAvailable` is true but no direction moves.
- JavaScript numbers are doubles. Scores and tile values are modelled as unbounded integers, which agree with the source below 2^53.
