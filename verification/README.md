# 2048 engine in Dafny

This project models the grid engine of a 2048-style sliding-tile game (the
`Engine` class of `src/engine.js`) and proves what its operations do.

The engine keeps a `width x height` board of cells. Each cell is empty (`null`)
or holds a tile value. Its operations are:

- **Direct access.** `setTile`, `getTile` and `getEmptyTiles` read and write cells.
- **Tile chain.** `moveTile` takes one tile through its slide/merge chain in a direction.
- **Whole move.** `move` visits every cell in a direction-dependent order, runs the chain
  for each, and returns a `{from, to}` record for every tile that ended somewhere else.
  It may then spawn new tiles.
- **Spawner.** `fillRandomTiles` puts a 2 or a 4 into randomly chosen empty cells.

The model has two layers:

- A value layer (modules `Grid`, `TileChain`, `Mover`, `Spawner`). The board is the
  datatype `Grid`, and every operation is a function on it. Lemmas about those
  functions state the rules and invariants.
- An object layer (module `GameEngine`). Its class `Engine` holds the cells in an
  array, row-major (`tiles[y * width + x]`), and updates them in place, as the source
  does. Each method is proved to leave exactly the board that the value-layer function
  computes.

Module `Behaviour` proves concrete outcomes:

- how many cells a first fill of a new board leaves empty, for a board of any size
  and for the default 4 x 4 board;
- what the chain of one tile does, moving left, at the head of a row `v, v` or `v, _, v`,
  and what a whole left move does to a row `v, v, 2v` whose other cells are empty,
  on a board of any size.

Randomness is a caller-supplied stream of draws `rand: nat -> nat`:

- Draw 0 chooses the default amount.
- Draws 1 to n choose the cells.
- The next n draws choose the values.

A draw picks a table entry by its remainder, so every entry can be drawn.

The model follows the code, also where a fuller 2048 engine would behave differently:

- There is no per-move "already merged" tracking. `Behaviour.MoveMergesRowTwice`
  proves that a whole left move turns a row `v, v, 2v` (other cells empty) into a
  single `4v` at its head. The move records the tile from x = 1 and then the tile
  from x = 2 as ending there.
- `move` never checks an ended flag.
- The "End" error cannot be raised. It needs `moved.length === 0` inside a branch
  guarded by `moved.length` (src/engine.js:187-189). `GameEngine.PlaySpec` proves
  the outcome is never `End`, and `GameEngine.Engine.Move` leaves `isEnded` unchanged.
- No error kinds for bad dimensions or coordinates exist.

## Model

| member | source | states |
|---|---|---|
| Grid.ParseDirection | src/engine.js:166 | a name is accepted exactly when it is one of the four keys `left`, `right`, `up`, `down`, and the accepted direction has that name |
| Grid.ParseDirectionName | src/engine.js:5-30 | each direction's name parses back to that direction |
| Grid.Step | src/engine.js:5-30 | the unit step of a direction lands strictly ahead of the cell on its row or column, with no cell in between |
| Grid.Index | src/engine.js:73-75 | every on-board cell has a key inside the board's storage |
| Grid.PosOf | src/engine.js:61-68 | the i-th stored cell is on the board and its key is i |
| Grid.PosOfIndex | src/engine.js:73-75 | a cell's key identifies the cell: decoding the key gives the cell back |
| Grid.IndexInjective | src/engine.js:73-75 | different cells have different keys |
| Grid.IndexOrder | src/engine.js:61-68 | storage order is row-major order (y outer, x inner), the order in which the constructor inserts the cells |
| Grid.Grid.Get | src/engine.js:93-96 | a lookup finds a cell exactly when (x, y) is on the board |
| Grid.Grid.Set | src/engine.js:77-87 | writing a cell gives it the new value and leaves every other cell as it was |
| Grid.Grid.EmptyTiles | src/engine.js:98-102 | the list holds exactly the empty on-board cells, once each, in row-major order; its length is the number of empty cells |
| Grid.EmptyGrid | src/engine.js:56-71 | a new board has `width * height` cells, all empty |
| TileChain.Chain | src/engine.js:145-163 | the chain keeps the board's dimensions and terminates, each step moving one cell closer to the edge; what it does is stated by `TileChain.ChainSpec` |
| TileChain.ChainSpec | src/engine.js:145-163 | an empty start yields no destination and no change. Otherwise the tile either stays where it is blocked (edge or different value) with no change, or travels ahead over empty cells only. It then ends on an empty cell where it is blocked, or doubles into an equal neighbour; its start becomes empty |
| TileChain.ChainStays | src/engine.js:146-162 | a chain with no destination, or one that ends on its start, leaves the board unchanged |
| TileChain.ChainMoves | src/engine.js:151-158 | a chain that ends elsewhere ends ahead of its start, on a cell that holds a tile, and empties its start |
| TileChain.ChainTotal | src/engine.js:151-158 | the sum of all tile values is unchanged by the chain |
| TileChain.ChainEmptyCount | src/engine.js:151-158 | a slide keeps the number of empty cells, and a merge adds exactly one |
| TileChain.ChainPowers | src/engine.js:155-157 | if every tile is a power of two before the chain, every tile is one after it |
| TileChain.ChainFrame | src/engine.js:145-163 | the chain changes no cell other than its start and the cells ahead of it |
| TileChain.ChainBlocked | src/engine.js:146-162 | a tile ends on its own start exactly when it is blocked (edge or different value), and then the board is unchanged |
| TileChain.ChainKeepsTiles | src/engine.js:150-160 | a chain empties no cell other than its start |
| Mover.VisitOrder | src/engine.js:167-172 | the visit order has one entry per cell, all on the board |
| Mover.VisitOrderSpec | src/engine.js:167-172 | every cell is visited; visits are row-major for left and up, and reverse row-major for right and down |
| Mover.AddRecordSpec | src/engine.js:178-185 | a visit keeps the records so far and adds at most one; it adds one exactly when the chain has a destination other than the visited cell, and that record goes from the visited cell to the destination |
| Mover.Sweep | src/engine.js:176-185 | running the chains from the visited cells keeps the board's dimensions; what it does is stated by the `Sweep*` and `Move*` lemmas |
| Mover.SweepTotal | src/engine.js:176-185 | visiting any prefix of the order keeps the sum of tile values |
| Mover.SweepEmptyCount | src/engine.js:176-185 | visiting any prefix of the order never reduces the number of empty cells |
| Mover.SweepPowers | src/engine.js:176-185 | visiting any prefix of the order keeps every value a power of two |
| Mover.SweepNoRecords | src/engine.js:176-185 | a prefix of visits that produced no record left the board unchanged |
| Mover.SweepLeavesRoom | src/engine.js:176-185 | after a prefix of visits that produced a record, some cell is empty |
| Mover.SweepRecords | src/engine.js:176-185 | each record starts at a visited cell and ends ahead of it, on a cell holding a tile; records follow the visit order |
| Mover.SweepRecordCount | src/engine.js:176-185 | each visit adds at most one record, so a prefix of k visits has at most k records |
| Mover.SweepKeepsCell | src/engine.js:176-185 | a cell that is not itself visited, and has no visited cell behind it in the direction of travel, keeps its value through the visits |
| Mover.SweepEmptyVisits | src/engine.js:176-185 | visits of cells that are empty change neither the board nor the records |
| Mover.SweepEmptyStep | src/engine.js:176-185 | visiting an empty cell changes neither the board nor the records |
| Mover.SweepGrowsRecords | src/engine.js:176-185 | records are only appended: the records after fewer visits are a prefix of the records after more |
| Mover.SweepStuck | src/engine.js:176-185 | when every tile is blocked in the direction, any prefix of the visits leaves the board unchanged and records nothing |
| Mover.SweepRecordsUnblocked | src/engine.js:176-185 | visiting a tile that can take its first step leaves at least one record |
| Mover.MoveBoard | src/engine.js:167-185 | a move keeps the board's dimensions and makes at most one record per cell; the rest is stated by the `Move*` lemmas, where the tiles end up by `Mover.MovePacked` |
| Mover.ChainStartPacked | src/engine.js:146-162 | after the chain from a cell, a tile left on that cell has no empty cell directly ahead |
| Mover.ChainKeepsCellPacked | src/engine.js:145-163 | the chain from a cell keeps every cell visited before it packed: a tile there still has no empty cell directly ahead |
| Mover.ChainKeepsPacked | src/engine.js:145-185 | running the chain from the next cell in the visit order keeps all visited cells packed, that cell included |
| Mover.SweepPacked | src/engine.js:176-185 | after any prefix of the visits, no visited tile has an empty cell directly ahead of it |
| Mover.MovePacked | src/engine.js:145-185 | after a move every tile has slid as far as it can: the cell directly ahead of it is off the board or holds a tile |
| Mover.UnblockedTileRecords | src/engine.js:176-185 | if any tile can take its first step, the move records something |
| Mover.MoveRecordsIffStuck | src/engine.js:176-185 | a move records nothing exactly when every tile is blocked in its direction, and then the board is unchanged |
| Mover.MoveTotal | src/engine.js:165-185 | a move keeps the sum of all tile values |
| Mover.MoveEmptyCount | src/engine.js:165-185 | a move never reduces the number of empty cells |
| Mover.MovePowers | src/engine.js:165-185 | a move keeps every value a power of two if all were before |
| Mover.MoveRecordsAndRoom | src/engine.js:176-193 | a move with no records changes nothing; a move with a record leaves at least one empty cell |
| Mover.MoveRecords | src/engine.js:176-185 | every record starts on the board, ends ahead of its start on a cell that holds a tile after the move, and records come in visit order |
| Spawner.Sample | src/engine.js:139 | a sample is an entry of its table |
| Spawner.SampleSize | src/engine.js:137 | exactly n entries of the pool are chosen, without repetition when the pool has none |
| Spawner.Fill | src/engine.js:138-140 | writing the chosen cells keeps the board's dimensions; what it writes is stated by `Spawner.FillSpec` |
| Spawner.FillSpec | src/engine.js:138-140 | each chosen empty cell receives its value, every other cell keeps its own, the empty count drops by the number of cells written, and the sum of values grows by at least that number |
| Spawner.SpawnAmount | src/engine.js:134 | a given amount is used as is; a missing amount becomes 1 or 2 |
| Spawner.SpawnValue | src/engine.js:139 | a spawned value is 2 or 4 |
| Spawner.SpawnValues | src/engine.js:138-140 | one value per chosen cell, each a 2 or a 4; a value is a 4 exactly when its draw selects the single 4 among the ten table entries |
| Spawner.Spawn | src/engine.js:129-143 | spawning keeps the board's dimensions; what it does is stated by `Spawner.SpawnSpec` |
| Spawner.SpawnSpec | src/engine.js:129-143 | the spawn reports no space exactly when no cell is empty, and then changes nothing. Otherwise it fills min(amount, #empty) distinct, previously empty cells with 2 or 4, leaves all others as they were, reduces the empty count by that many, and raises the sum of values by at least that many |
| GameEngine.Play | src/engine.js:165-196 | a move keeps the board's dimensions; what it does is stated by `GameEngine.PlaySpec` |
| GameEngine.PlaySpec | src/engine.js:165-196 | `move` never raises "End". An unknown direction changes nothing. A move with no records changes nothing, even with auto-spawn. The sum of values never drops, and without a spawn it is kept exactly. With a spawn, one or two more cells are filled (or the board is full) |
| GameEngine.PlayStuck | src/engine.js:165-196 | `move` in a direction where every tile is blocked returns no records and leaves the board as it was, even with auto-spawn |
| GameEngine.MoveLeavesRoomToSpawn | src/engine.js:187-193 | after a move with a record, the spawn always finds an empty cell |
| GameEngine.Engine.constructor | src/engine.js:56-71 | a new engine has the given width and height and every cell empty; `isEnded` is false |
| GameEngine.Engine.GetTile | src/engine.js:93-96 | `getTile` finds a cell exactly on the board, and returns the stored value |
| GameEngine.Engine.SetTile | src/engine.js:77-87 | `setTile` writes that cell only; reading it back gives the value |
| GameEngine.Engine.GetEmptyTiles | src/engine.js:98-102 | `getEmptyTiles` lists exactly the empty cells, in row-major order |
| GameEngine.Engine.FillRandomTiles | src/engine.js:129-143 | the method returns the spawn's report and leaves the spawn's board (see `Spawner.SpawnSpec`) |
| GameEngine.Engine.PlaceTiles | src/engine.js:138-140 | the loop leaves the board with each chosen cell holding its drawn value, in order |
| GameEngine.Engine.MoveTile | src/engine.js:145-163 | `moveTile` returns the chain's destination and leaves the chain's board (see `TileChain.ChainSpec`) |
| GameEngine.Engine.VisitCell | src/engine.js:176-185 | one visit runs the chain and adds a record exactly when the tile ended elsewhere |
| GameEngine.Engine.SweepTiles | src/engine.js:167-185 | the loop returns the move's records and leaves the move's board (see the `Mover` lemmas) |
| GameEngine.Engine.Move | src/engine.js:165-196 | `move` returns the outcome and leaves the board of `Play`, and never changes `isEnded` |
| Behaviour.FreshBoardEmpty | src/engine.spec.js:11-17 | a new engine has `width * height` empty cells |
| Behaviour.FreshFill | src/engine.js:129-143 | filling a new board succeeds, and leaves `width * height - min(amount, width * height)` cells empty |
| Behaviour.DefaultBoardFillFive | src/engine.spec.js:372-375 | `fillRandomTiles(5)` on a new 4 x 4 engine leaves 11 empty cells |
| Behaviour.DefaultBoardFill | src/engine.spec.js:366-370 | `fillRandomTiles()` on a new 4 x 4 engine leaves 14 or 15 empty cells |
| Behaviour.ChainMergesIntoHead | src/engine.js:151-158 | moving left, a tile next to an equal tile at the head of its row merges into it: the head doubles, the tile's cell empties, and the chain ends at the head |
| Behaviour.ChainSlidesIntoHead | src/engine.js:151-158 | moving left, a tile with one empty cell between it and an equal head slides over the gap and merges: the head doubles, both other cells end empty, and the chain ends at the head |
| Behaviour.MoveMergesRowTwice | src/engine.js:145-185 | a whole left move on a row `v, v, 2v` with the rest of the row empty leaves `4v` at the head and every other cell of the row empty; its records hold (1, y) to (0, y) immediately followed by (2, y) to (0, y), so a merged tile merges again in the same move |

## Left out

- `cli.js`, the terminal front end, is not part of this model. It is keyboard input, screen output and process exit; it is also the only reader of `isEnded`.
- `print` and `printTile` (src/engine.js:104-127) are console formatting; the model compares boards directly.
- `getTiles` (src/engine.js:89-91) hands out the engine's own `Map`; the model exposes the board as the value `Board()` instead.
- The probabilities of `_.sample` and `_.sampleSize` are not modelled. The choices come from the draw stream `rand`, so the proofs hold for every outcome. The comment at src/engine.js:32 says a 4 comes 20% of the time; the table below it gives one 4 in ten entries, and the model uses the table.
- Spawner.SampleSize: chooses by pick-and-remove from the remaining pool, one draw per pick. Lodash's own sampling algorithm is not followed; only "n distinct entries of the pool" is kept.
- GameEngine.Engine.SetTile: requires an on-board coordinate. In the source, an off-board `setTile` adds an extra tile to the `Map` (src/engine.js:80-83), which `getEmptyTiles` and `move` would then also visit. The model keeps the board rectangular.
- GameEngine.Engine.SetTile: the chaining return value (`return this`) is not modelled.
- GameEngine.Engine.FillRandomTiles: the amount is a natural number and 0 stands for "not given", as `amount || ...` treats it. Negative or fractional amounts are not modelled.
- GameEngine.Engine.Move: the auto-spawn argument is a boolean; other truthy or falsy values are not modelled.
- GameEngine.Engine.constructor: the unused `states` field (src/engine.js:70) is not modelled. `isEnded`, which the source leaves undefined until set, starts as `false`.
- Cell values are positive naturals and an empty cell is `None`. The source tests emptiness two ways, `=== null` in `moveTile` and `!value` in `getEmptyTiles`; these agree for every value the engine itself stores.
- `beforeMoveEmptyTiles` (src/engine.js:174) is computed and never used.
- Records are coordinate pairs. In the source they hold the live tile objects, so a record's tile values are whatever those cells hold after the whole move.
- The four before/after boards of the unit tests (src/engine.spec.js:48-362) are not restated as lemmas on those literal 4 x 4 boards. Instead:
  - `Mover.MovePacked` states the placement rule that every one of those boards shows: after a move, no tile has an empty cell directly ahead of it.
  - `Behaviour.ChainSlidesIntoHead` states the slide-then-merge of the tile at the end of a row `v, _, v` moving left, the case of the row `[2, _, 2, _]` in those tests.
  - `Behaviour.ChainMergesIntoHead` and `Behaviour.MoveMergesRowTwice` state cases no test exercises: a merge between neighbours, and a tile merged in a move merging again in the same move (src/engine.js:155-158 keeps no merge-once mark).
  - The `Mover` lemmas state the general properties of a move: sum, empty cells, records and their order.
  - `Mover.MoveRecordsIffStuck` and `GameEngine.PlayStuck` state the rule behind the second, empty move of the last test (src/engine.spec.js:351-361): a move records nothing exactly when every tile is blocked, and then the board stays as it was even with auto-spawn. That the board of that test is blocked to the left is not proved.
- Behaviours of a fuller 2048 engine that this code does not have are not modelled: merge-once tracking, a sticky "ended" state that rejects moves, errors for bad dimensions or coordinates, and game-over detection across all four directions.
