# Minesweeper board logic in Dafny

This project models the board logic of a single-file raylib Minesweeper
(`src/main.c`).

The game keeps two static arrays of 100 x 100 cells:
- `field` holds -1 for a mine, or the number of mines among the cell's in-grid 8-neighbours;
- `state_field` holds OPEN, CLOSE or FLAG.

Beside them it keeps the grid size (`field_columns`, `field_rows`), the mine count `bombs`, the `score` and the current screen. Cell (x, y) lives at index `y * field_columns + x`.

The model follows the source's own form:
- `Minefield.Board` is a class that owns both arrays, at their full static size.
- Its methods change the arrays in place with the same loops as the C code:
  - the generation loops of `init_field`;
  - the counting loop of `flags`;
  - the fixed-point flood fill of `open_empty_cells`;
  - the early-exit scan of `check_win`;
  - the loop of `process_lose`;
  - the reveal and flag branch of `render_field`;
  - the button handlers of the menus.
- Each method is proved against a specification. Ghost predicates and functions over the array contents (`Consistent`, `FloodClosed`, `Won`, `FlagCells`, `Opened`, `Mines`) state what the source promises. Lemmas prove the properties of those specifications.
- The flood fill is pinned down from both sides. `FloodClosed` says every Open empty cell has all its neighbours Open. `Reachable` and `Connected` follow paths of grid cells, each next to the one before, with every cell but the last empty. Together they show that a click on an empty cell opens exactly its empty region and the numbered cells bordering it.

The files are:
- `grid.dfy` (module `Grid`): the flat layout, the nine neighbour slots, scanned row by row as the `sy`/`sx` loops do, and the adjacency count `MinesAround`. It also holds the invariant `Consistent` that `init_field` establishes, and the bounds on counts (0..8, at most 5 on an edge, at most 3 in a corner).
- `placement.dfy` (module `Placement`): `random_number`, the mine count and rejection sampling. The C library's `rand()` is replaced by the sequence of values it returns (`rolls`). `Pick` is the reference definition of which cells become mines for a given sequence.
- `screens.dfy` (module `Screens`): the screens and the transition each released button causes.
- `minefield.dfy` (module `Minefield`): the `Board` class and the lemmas about opening and flagging cells.

The invariant `Board.Valid()` holds after construction and is kept by every action. It has three parts:
- every non-mine grid cell holds its adjacency count;
- every Open cell with count 0 has all its in-grid neighbours Open (the flood fill is complete);
- no more cells are flagged than there are mines.

Where a preset's mine count and its button label disagree, the model follows the code. The code's density 15.625 % gives `cells * 5 / 32` mines: 10, 40 and 62. The hard preset's button says 63 (`src/main.c:309`).

## Model

| member | source | states |
|---|---|---|
| Grid.Idx | src/main.c:252 | the index `y * columns + x` of an in-grid cell lies in `[0, columns * rows)` |
| Grid.IdxInjective | src/main.c:252 | two in-grid cells share an index exactly when they are the same cell |
| Grid.SlotOffset | src/main.c:257-258 | the scan slot `(sy + 1) * 3 + sx + 1` has offset (sx, sy), and only slot 4 is the cell itself |
| Grid.MinesStep | src/main.c:210-217 | one step of the 3x3 scan adds 1 exactly when that neighbour is another in-grid cell holding a mine |
| Grid.NoMineBefore | src/main.c:209-217 | a scan that found no mine in its first k slots found none in any slot below k |
| Grid.NoMineAtSlot | src/main.c:257-268 | around a cell whose count is 0, no in-grid neighbour slot holds a mine |
| Grid.NoMineNearEmpty | src/main.c:253-268 | a neighbour of a cell whose count is 0 is not a mine, so the fill never opens a mine |
| Grid.SameMinesBefore | src/main.c:209-217 | the partial count depends only on where the mines are |
| Grid.SameMinesAround | src/main.c:205-221 | the count depends only on where the mines are, so writing counts into the field does not change any count |
| Grid.CountingStart | src/main.c:205-206 | the counting scan starts with nothing counted, on the field as mine placement left it |
| Grid.CountingStore | src/main.c:209-219 | writing a non-mine cell's count extends the scanned region by that cell; the count on the partly written field equals the count on the placed field |
| Grid.CountingSkip | src/main.c:207 | a mine is skipped and keeps its value |
| Grid.CountingRow | src/main.c:205-206 | the end of a row is the start of the next |
| Grid.CountingDone | src/main.c:205-221 | after the last row the field satisfies the adjacency invariant |
| Grid.NoMinesBefore | src/main.c:209-217 | on a field without mines every partial count is 0 |
| Grid.EmptyConsistent | src/main.c:85 | a field without mines (the zero-initialised static array) satisfies the adjacency invariant |
| Grid.MinesBeforeCells | src/main.c:212-216 | the mines counted are at most the in-grid neighbour cells scanned |
| Grid.CellsExact | src/main.c:212-214 | the number of in-grid neighbours is the sum of the eight per-direction bound checks |
| Grid.CellsAround | src/main.c:212-214 | a cell has at most 8 in-grid neighbours, at most 5 on an edge and at most 3 in a corner |
| Grid.MinesAroundBound | src/main.c:209-219 | a count is at most 8, at most 5 on an edge and at most 3 in a corner |
| Grid.ConsistentValues | src/main.c:205-221 | under the adjacency invariant every grid value is -1 or in 0..8 |
| Placement.RandomNumber | src/main.c:91-94 | `random_number(min, max)` lies in `[min, max]` for every non-negative `rand()` result |
| Placement.BombCount | src/main.c:196-197 | the mine count is `floor(cells * 15.625 / 100)`: `n * 32 <= cells * 5 < (n + 1) * 32`, and `0 <= n <= cells` |
| Placement.Candidates | src/main.c:199-200 | each draw `random_number(0, cells - 1)` is a cell index in `[0, cells)` |
| Placement.ElemsFrom | src/main.c:198-201 | the candidates from k on are candidate k and those after it |
| Placement.PickWithin | src/main.c:198-202 | rejection sampling only adds drawn candidates to the cells already placed |
| Placement.PickSize | src/main.c:198-202 | with enough distinct candidates, sampling stops with exactly the required number of mines |
| Placement.DrawnStart | src/main.c:198 | before the first draw nothing is placed |
| Placement.FreeAhead | src/main.c:200 | while fewer cells are mines than there are distinct candidates, a candidate that is not yet a mine lies ahead, so the resample loop ends |
| Placement.PickRun | src/main.c:199-201 | resampling past candidates that are already mines places the first one that is not, and nothing else |
| Placement.DrawRun | src/main.c:199-201 | one iteration of the placement loop extends the drawn prefix and places exactly its last candidate |
| Placement.DrawnAll | src/main.c:198-202 | once `bombs` cells are mines the placement equals the reference `Mines` |
| Placement.MinesPlaced | src/main.c:196-202 | exactly `BombCount(cells)` distinct cells become mines, all in `[0, cells)` |
| Screens.PresetColumns | src/main.c:319-330 | the presets' widths are 8, 16 and 25, within the static bounds |
| Screens.PresetRows | src/main.c:319-330 | the presets' heights are 8, 16 and 16, within the static bounds |
| Screens.PresetBombs | src/main.c:196-197 | the presets get 10, 40 and 62 mines; the hard preset gets 62, not the 63 its label promises |
| Screens.Step | src/main.c:590-602 | a game starts from another screen exactly when a preset is chosen on the difficulty menu or "Play again" is pressed after a game; Win and Lose are only kept, never entered by a button; buttons change nothing during a game; Menu is only kept (the main menu's buttons are at src/main.c:176-183 and the difficulty menu's at src/main.c:317-338; the cited lines are the end screen's) |
| Screens.NextColumns | src/main.c:319-330 | only a preset on the difficulty menu changes the width |
| Screens.NextRows | src/main.c:319-330 | only a preset on the difficulty menu changes the height |
| Screens.GameOnlyAfterDifficulty | src/main.c:176-183 | from the main menu, any button sequence reaches a game only by choosing a preset on the difficulty menu |
| Screens.QuitIsFinal | src/main.c:651-652 | once the game has quit no button brings it back |
| Minefield.OnlyOpensTrans | src/main.c:248-272 | changes that only open cells compose |
| Minefield.MinesKeptTrans | src/main.c:248-272 | changes that open no mine compose |
| Minefield.OpenedCompose | src/main.c:263-266 | the cells opened by two steps are the disjoint union of those opened by each step |
| Minefield.OpenOne | src/main.c:263-266 | opening one cell that is not Open adds exactly that cell to the opened cells |
| Minefield.NothingOpened | src/main.c:265 | a step that opened nothing changed nothing |
| Minefield.NotOpenShrinks | src/main.c:248-249 | each opened cell leaves the set of cells that are not Open; this is the fill's termination measure |
| Minefield.FlagsShrink | src/main.c:263-264 | opening cells never adds a flag |
| Minefield.OpeningStart | src/main.c:257 | the scan around a cell starts with nothing opened |
| Minefield.SlotSkip | src/main.c:259-263 | a neighbour slot that is the cell itself, out of the grid or already Open changes nothing |
| Minefield.OpenSlot | src/main.c:262-266 | opening a closed or flagged in-grid neighbour of a 0 cell opens one more cell, no mine, and scores it |
| Minefield.SlotsOpenStep | src/main.c:262-264 | opening slot k's cell extends the Open slots by one |
| Minefield.MinesKeptStep | src/main.c:264 | opening a cell that is not a mine opens no mine |
| Minefield.FillingStart | src/main.c:249-250 | a pass starts with nothing opened and nothing scanned |
| Minefield.FillingSkip | src/main.c:253-254 | a cell that is not an Open 0 is passed over |
| Minefield.FillingOpen | src/main.c:256-269 | an Open 0 whose neighbours were opened keeps the pass's bookkeeping; if nothing was opened so far, the scanned region stays complete |
| Minefield.FillingRow | src/main.c:250-251 | the end of a row is the start of the next |
| Minefield.FillingDone | src/main.c:248-272 | a pass that opened nothing leaves the fill complete |
| Minefield.SlotsOpenAll | src/main.c:257-269 | once all nine slots are scanned, every in-grid neighbour is Open |
| Minefield.FlagOne | src/main.c:448 | flagging a closed cell adds exactly that cell to the flags |
| Minefield.UnflagOne | src/main.c:451 | closing a flagged cell removes exactly that cell from the flags |
| Minefield.ClosedKept | src/main.c:435 | the fill stays complete when cells only become Open and none of the new ones has count 0 |
| Minefield.PathJoin | src/main.c:248-272 | a path through empty cells to the start of another such path continues along it |
| Minefield.ReachedOpen | src/main.c:248-272 | once the fill is complete, every cell a path through empty cells reaches from an Open cell is Open |
| Minefield.NearStep | src/main.c:262-264 | opening an in-grid neighbour of (x, y) keeps every change next to (x, y) |
| Minefield.NearScan | src/main.c:259-267 | one slot of the scan around (x, y) changes at most the neighbour at that offset |
| Minefield.NearGrown | src/main.c:253-268 | every cell the scan around an Open empty cell opens is reached from that cell |
| Minefield.PassSkip | src/main.c:253-254 | a cell the pass skips because it is not an Open 0 now was not an Open 0 when the pass began, so the pass owes it nothing |
| Minefield.PassOpen | src/main.c:257-270 | after the scan around an Open 0, its neighbours are Open and the cells scanned before it keep their Open neighbours |
| Minefield.PassRow | src/main.c:250-251 | the end of a row is the start of the next |
| Minefield.GrownTrans | src/main.c:248-272 | what a later scan or pass opens is reached through empty cells from what was Open before the earlier one |
| Minefield.FillResult | src/main.c:245-273 | after a complete fill, a grid cell is Open exactly when it was Open before or is reached through empty cells from an Open cell |
| Minefield.ClickRegion | src/main.c:435-437 | on a board whose fill was complete, the cells reached after opening the clicked cell (x, y) are the old Open cells plus those connected to (x, y) |
| Minefield.ClickResult | src/main.c:435-437 | opening a closed cell and running the fill to completion leaves Open exactly the cells that were Open or are connected to it through empty cells |
| Minefield.Board.constructor | src/main.c:83-88 | the static state before any game: 100 x 100 grid, field all 0, every status OPEN, no mines, main menu, and the board invariant holds; both arrays are newly allocated, so a caller may then play on the board |
| Minefield.Board.ResetCells | src/main.c:190-193 | all 10000 cells, not only the grid's, get value 0 and status CLOSE |
| Minefield.Board.DrawFree | src/main.c:199-200 | the resample loop returns the first drawn cell that is not a mine; every earlier draw hit a mine |
| Minefield.Board.PlaceMines | src/main.c:196-202 | `bombs` is set to `BombCount(cells)` and the mines are exactly the reference placement `Mines(rolls, cells)` |
| Minefield.Board.FillCounts | src/main.c:205-221 | every non-mine grid cell gets its adjacency count; mines and cells past the grid are unchanged |
| Minefield.Board.InitField | src/main.c:187-232 | every cell is CLOSE; exactly `BombCount(cells)` distinct grid cells, those of `Mines(rolls, cells)`, are mines; the counts are consistent; cells past the grid hold 0 |
| Minefield.Board.CountFlags | src/main.c:235-242 | the result is the number of FLAG cells in the grid |
| Minefield.Board.CheckWin | src/main.c:276-284 | true exactly when every non-mine grid cell is Open |
| Minefield.Board.ProcessLose | src/main.c:342-348 | exactly the grid's mines become Open, every other status is unchanged, and the screen becomes Lose |
| Minefield.Board.CountMinesAround | src/main.c:209-218 | the 3x3 scan returns the number of in-grid neighbours holding a mine |
| Minefield.Board.OpenNeighbour | src/main.c:259-267 | the exact new state: the neighbour at offset (sx, sy), when it is another grid cell and not Open, becomes Open and scores a point; otherwise nothing changes |
| Minefield.Board.OpenAround | src/main.c:257-269 | around an Open 0 every in-grid neighbour becomes Open and only those neighbours change; no mine is opened, the score grows by the number opened, and `changed` tells whether any was |
| Minefield.Board.FillPass | src/main.c:249-271 | one pass only opens cells, none a mine, each reached through empty cells from a cell Open before the pass, and scores each; every cell that was an Open 0 when the pass began has all its neighbours Open afterwards; `run` tells whether it opened any; a pass that opened nothing leaves the fill complete |
| Minefield.Board.OpenEmptyCells | src/main.c:245-273 | the fill terminates; afterwards a grid cell is Open exactly when it was Open before or is reached through empty cells from an Open cell, and cells past the grid are unchanged; no mine is opened, the score grows by the number of newly opened cells, and every Open 0 has all its neighbours Open |
| Minefield.Board.OpenCell | src/main.c:435-438 | the closed cell becomes Open; a number changes nothing else and scores 1, a mine scores 0; an empty cell opens exactly the cells connected to it through empty cells, which score a point each while the clicked cell itself does not; the board invariant is kept |
| Minefield.Board.Reveal | src/main.c:431-441 | outside a game or on a cell that is not CLOSE nothing changes; a mine opens all mines and the screen becomes Lose; a number opens only that cell; an empty cell opens exactly its empty region and the numbers bordering it; then the screen becomes Win exactly when every non-mine cell is Open; the board invariant is kept |
| Minefield.Board.ToggleFlag | src/main.c:442-453 | an Open cell never changes; a CLOSE cell becomes FLAG only while fewer flags than mines are set, otherwise it stays CLOSE; a FLAG cell becomes CLOSE; flags never exceed mines |
| Minefield.Board.Press | src/main.c:317-338 | the screen follows `Step`; a preset sets the grid size; a preset or "Play again" resets the score and generates a new field from the rolls; other buttons leave field, statuses, score and mine count unchanged (the "Play again" button it also handles is at src/main.c:590-602) |

## Left out

- Drawing, layout, fonts, textures, audio (`PlaySound`), screenshots, window life cycle and the `DEBUG` dump of the field: these are I/O with no effect on the board.
- Mouse and key polling and hit-testing (`is_mouse_or_key_*`, `CheckCollisionPointRec`, `cell_left_pressed_index`, `cell_right_pressed_index`): a click is modelled as a direct call of `Reveal` or `ToggleFlag` on a cell, and a button release as `Press` with the button.
- `rand()` and `srand(time(NULL))`: the values `rand()` returns are a parameter `rolls`. `InitField` requires that they draw at least `BombCount(cells)` distinct cells, because otherwise the source's resample loop would not end.
- The float `bomb_percent`: the model uses the exact integer equivalent `cells * 5 / 32`.
- The float timer `seconds_played`, the `is_field_generated` flag and the Pause screen: none of them affects the board, and no code path enters Pause.
- Minefield.Board.Press: the source sets the new grid size and switches to the Game screen before generating the field. The model generates first and sets the screen last. No observable state differs.
