# Game of Life: step engine and keyboard state

This project models, in Dafny, two parts of a browser Game of Life viewer:

- **The life step engine** (`simulateLife` and class `CellMap`). It takes the
  list of live cells of an unbounded integer grid and returns the next
  generation under Conway's rule. It builds two string-keyed maps from the same
  input. Every neighbour count is read from the first map. Deaths and births go
  to the second, whose values are returned.
- **The keyboard state** (class `UserInput`). Six boolean flags (`up`, `down`,
  `left`, `right`, `q`, `e`). A `keydown` handler sets one flag and a `keyup`
  handler clears it, chosen by the lower-cased key name through a fixed table.

The modules follow the program:

- `Vec2` (vec2.dfy) is the integer pair and its 8-cell Moore neighbourhood.
- `CellKey` (cell_key.dfy) is the `${x},${y}` string key. It is proved
  injective, so keying by string is keying by value.
- `LifeRules` (life_rules.dfy) is the reference: Conway's rule on sets of cells
  (`NextGen`), with its full characterisation and the single-cell consequences.
- `GameOfLife` (game_of_life.dfy) is the engine. It has class `CellMap` and the
  method `SimulateLife`, whose loop is proved to produce exactly
  `NextGen` of the input.
- `GameOfLifeTests` (game_of_life_tests.dfy) states the test suite's scenarios on `SimulateLife`.
- `Keyboard` (keyboard.dfy) is class `UserInput`. It comes with a value-level
  specification of the two handlers (`Press`, `Release`) and lemmas about them.

`CellMap` holds a `map<string, Vec2>` and, to model the insertion order a
JavaScript `Map` iterates in, an `order` sequence of its keys. Its abstract
state is `Alive()`, the set of stored cells. `Valid()` says two things: each
entry is stored under its own key, and `order` lists each key exactly once.

The proof of `SimulateLife` is a loop invariant. After visiting the first `i`
input cells, the next map holds the input minus the visited cells marked for
death, plus every neighbour of a visited cell that has exactly 3 live
neighbours. Counts are taken from the previous map, which the loop never
modifies. This is the isolation that makes the set of result cells independent
of the visiting order; the order of the returned list still follows insertion.

## Model

| member | source | states |
|---|---|---|
| GameOfLife.SimulateLife | gol/GameOfLife.ts:3-22 | The result has no repeated cell. A cell is in it exactly when it is in `NextGen` of the input, i.e. when it has exactly 3 live neighbours or is live with 2. An empty input gives an empty result. |
| GameOfLife.VisitCell | gol/GameOfLife.ts:7-19 | Visiting input cell `i` takes the next map from the partial result for the first `i` cells to the partial result for the first `i + 1`. The cell dies unless it has 2 or 3 live neighbours in the previous map, then its neighbours with exactly 3 are born. |
| GameOfLife.SetBornNeighbors | gol/GameOfLife.ts:14-18 | The inner pass adds to the next map exactly those neighbours of the cell that have 3 live neighbours in the previous map. |
| GameOfLife.VisitNeighbor | gol/GameOfLife.ts:15-17 | The next map's set of cells gains the neighbour exactly when its count in the previous map is 3, and otherwise stays the same. The contract does not track the key order. |
| GameOfLife.PartialStep | gol/GameOfLife.ts:8-18 | One kill followed by the births around the same cell advances the partial result by exactly that cell. |
| GameOfLife.DeltasGiveNextGen | gol/GameOfLife.ts:5-21 | Once every input cell has been visited, the input minus the kills plus the births is exactly the next generation. |
| GameOfLife.CellMap.FromAliveCells | gol/GameOfLife.ts:29-33 | The map built from a list stores exactly the cells of the list, each under its own key, repeats included once. Its key order is `FirstKeys` of the list: each key at the place of its cell's first occurrence. |
| GameOfLife.CellMap.SetAlive | gol/GameOfLife.ts:35-37 | The stored set gains the cell. A new key goes to the end of the order, and an existing key keeps its place. |
| GameOfLife.CellMap.SetDead | gol/GameOfLife.ts:39-41 | The stored set loses the cell, and its key leaves the order. Every other key keeps its relative place. |
| GameOfLife.CellMap.GetAliveCells | gol/GameOfLife.ts:43-45 | The returned list holds every stored cell exactly once, in the insertion order of their keys. |
| GameOfLife.CellMap.GetAliveNeighbors | gol/GameOfLife.ts:47-49 | The returned cells are exactly the live cells adjacent to the given cell, so their number is its live-neighbour count. |
| GameOfLife.CellMap.AliveAmong | gol/GameOfLife.ts:48 | Filtering a list by liveness keeps exactly its live members and keeps a repetition-free list repetition-free. |
| GameOfLife.CellMap.IsCellAlive | gol/GameOfLife.ts:51-53 | Having the cell's key is equivalent to the cell being stored. |
| GameOfLife.FirstKeys | gol/GameOfLife.ts:30-32 | The keys of a list in first-occurrence order, as `new Map(entries)` holds them, have no repeats and are no more than the list's entries. |
| GameOfLife.HasKeyIffStored | gol/GameOfLife.ts:52 | In a map whose entries sit under their own keys, a cell's key is present exactly when the cell is a stored value. |
| GameOfLife.StoreValues | gol/GameOfLife.ts:36 | Setting a cell under its key adds exactly that cell to the stored values, and every entry stays under its own key. |
| GameOfLife.DeleteValues | gol/GameOfLife.ts:40 | Deleting a cell's key removes exactly that cell from the stored values, and every entry stays under its own key. |
| GameOfLife.ListedValues | gol/GameOfLife.ts:44 | Reading the values in key order yields every stored cell exactly once. |
| GameOfLife.RemoveKey | gol/GameOfLife.ts:40 | Deleting a key from the order keeps exactly the other keys, without repeats. |
| CellKey.NatToString | gol/GameOfLife.ts:56 | A natural number renders to a non-empty string of decimal digits without a leading zero, and the digits denote the number. |
| CellKey.IntToString | gol/GameOfLife.ts:56 | An integer renders without a comma, with a leading '-' exactly when it is negative, and the digits after the sign denote its magnitude. |
| CellKey.KeyLayout | gol/GameOfLife.ts:55-57 | A cell's key is the rendering of x, a comma, then the rendering of y, and the first comma of the key is the separator. |
| CellKey.KeyInjective | gol/GameOfLife.ts:55-57 | Two cells with the same key are the same cell. |
| CellKey.IntToStringInjective | gol/GameOfLife.ts:56 | Distinct integers render to distinct decimal strings. |
| CellKey.SplitAtComma | gol/GameOfLife.ts:56 | A comma-free first component is recovered from the joined key, and so is the rest. |
| Vec2.Neighbors | test/GameOfLife.test.ts:38-45 | The neighbour list has 8 cells, without repeats, and they are exactly the cells adjacent to the centre. |
| Vec2.Add | test/GameOfLife.test.ts:50-54 | Subtracting the offset from the sum, coordinate by coordinate, gives back the starting cell. |
| LifeRules.NextGenRule | gol/GameOfLife.ts:7-21 | A cell is in the next generation exactly when it has 3 live neighbours, or it is live and has 2. |
| LifeRules.NeighborCountAsCountIn | gol/GameOfLife.ts:47-49 | The count of live adjacent cells equals the number of live entries in the neighbour list. |
| LifeRules.CountInIsCardinality | gol/GameOfLife.ts:48 | In a repetition-free list, the number of live entries is the size of their set. |
| LifeRules.DistinctCardinality | gol/GameOfLife.ts:44 | A repetition-free list has as many entries as its set of elements. |
| LifeRules.Locality | gol/GameOfLife.ts:14-18 | Every cell of the next generation is live now or adjacent to a live cell. |
| LifeRules.EmptyStaysEmpty | test/GameOfLife.test.ts:5-9 | The next generation of no cells is empty. |
| LifeRules.Underpopulation | gol/GameOfLife.ts:10-12 | A live cell with fewer than 2 live neighbours dies. |
| LifeRules.Survival | gol/GameOfLife.ts:10-12 | A live cell with 2 or 3 live neighbours survives. |
| LifeRules.Overcrowding | gol/GameOfLife.ts:10-12 | A live cell with more than 3 live neighbours dies. |
| LifeRules.Birth | gol/GameOfLife.ts:14-18 | A dead cell with exactly 3 live neighbours is born. |
| LifeRules.StaysDead | gol/GameOfLife.ts:14-18 | A dead cell with any other count stays dead. |
| LifeRules.LonelyCellDies | test/GameOfLife.test.ts:11-21 | The origin next to (1,0) alone is not in the next generation. |
| LifeRules.HappyCellSurvives | test/GameOfLife.test.ts:23-34 | The origin with (1,0) and (0,1) is in the next generation. |
| LifeRules.OvercrowdedCellDies | test/GameOfLife.test.ts:36-46 | The origin with all 8 of its neighbours is not in the next generation. |
| LifeRules.BirthFromThree | test/GameOfLife.test.ts:48-59 | The origin, dead, with (1,0), (0,1) and (1,1) live, is in the next generation. |
| GameOfLifeTests.RemainsLifeless | test/GameOfLife.test.ts:5-9 | One step from no cells returns the empty list. |
| GameOfLifeTests.LonelyCellDiesStep | test/GameOfLife.test.ts:11-21 | One step from the origin and (1,0) returns a list without the origin. |
| GameOfLifeTests.HappyCellSurvivesStep | test/GameOfLife.test.ts:23-34 | One step from the origin, (1,0) and (0,1) returns a list holding the origin. |
| GameOfLifeTests.OvercrowdedCellDiesStep | test/GameOfLife.test.ts:36-46 | One step from the origin followed by its 8 neighbours returns a list without the origin. |
| GameOfLifeTests.BirthFromThreeStep | test/GameOfLife.test.ts:48-59 | One step from the origin moved by (1,0), (0,1) and (1,1) returns a list holding the origin. |
| Keyboard.UserInput.constructor | libraries/UserInput.ts:5-12 | All six flags start released. |
| Keyboard.UserInput.Keys | libraries/UserInput.ts:3 | The read of the state reports exactly the six current flag values. |
| Keyboard.UserInput.KeyDown | libraries/UserInput.ts:24-49 | The new flags are `Press` of the old flags and the key. |
| Keyboard.UserInput.KeyUp | libraries/UserInput.ts:51-76 | The new flags are `Release` of the old flags and the key. |
| Keyboard.Binding | libraries/UserInput.ts:25-48 | The case table selects flag `g` exactly for the names listed for `g`. |
| Keyboard.Press | libraries/UserInput.ts:24-49 | After a key goes down, each flag is set if the lower-cased key is one of its names, and is unchanged otherwise. |
| Keyboard.Release | libraries/UserInput.ts:51-76 | After a key comes up, each flag is cleared if the lower-cased key is one of its names, and is unchanged otherwise. |
| Keyboard.BindingMatchesNames | libraries/UserInput.ts:25-47 | A lower-cased name selects a flag exactly when it is one of that flag's listed names. |
| Keyboard.UnboundNameListedNowhere | libraries/UserInput.ts:25-48 | A name selects no flag exactly when no flag lists it. |
| Keyboard.CaseInsensitive | libraries/UserInput.ts:25 | A key acts exactly as its lower-cased name does, on press and on release. |
| Keyboard.ToLowerIdempotent | libraries/UserInput.ts:25 | Lower-casing twice is lower-casing once. |
| Keyboard.PressSetsFlag | libraries/UserInput.ts:24-49 | Pressing a listed name, in any letter case, sets its flag and leaves the other five unchanged. |
| Keyboard.ReleaseClearsFlag | libraries/UserInput.ts:51-76 | Releasing a listed name, in any letter case, clears its flag and leaves the other five unchanged. |
| Keyboard.AtMostOneFlagChanges | libraries/UserInput.ts:25-48 | A press or a release changes a flag only if the key is one of that flag's names, so at most one flag changes. |
| Keyboard.UnknownKeyIgnored | libraries/UserInput.ts:52-75 | A key listed for no flag changes nothing on press or release. |
| Keyboard.PressIdempotent | libraries/UserInput.ts:24-49 | Pressing the same key twice gives the state of pressing it once. |
| Keyboard.AliasesShareState | libraries/UserInput.ts:34-37 | Releasing any name of a flag undoes pressing any other name of it, leaving that flag cleared. |
| Keyboard.PressAReleaseArrowLeft | libraries/UserInput.ts:61-64 | Pressing "a" and then releasing "ArrowLeft" leaves `left` released. |
| Keyboard.NamesInAnyCase | libraries/UserInput.ts:26-33 | "W" and "ArrowUp" both set `up`, and "ARROWDOWN" and "s" both set `down`. |
| Keyboard.With | libraries/UserInput.ts:28 | Updating one flag sets it to the given value and leaves the other five unchanged. |
| Keyboard.ToLower | libraries/UserInput.ts:25 | Lower-casing keeps the length and leaves no capital A-Z. A name without capitals comes back unchanged. Each capital becomes the small letter at the same alphabet position (through `LowerChar`). |
| Keyboard.LowerChar | libraries/UserInput.ts:25 | A capital A-Z becomes the small letter at the same alphabet position, and every other character is left alone. |

## Left out

- Coordinates are unbounded integers, rendered in plain decimal. The source's coordinates are JavaScript numbers (doubles). Three behaviours are therefore not modelled. From magnitude 10^21 a template literal prints exponent form (`1e+21`). Above 2^53, `x + 1` may equal `x`, so neighbours can coincide. `-0` prints as `0`. The grid is meant to be unbounded; the application seeds cells only in [-25, 25) (src/app/Application.ts:16-17), far from those limits.
- `Vec2` itself is not part of this model. Only the integer pair, component-wise addition and the 8-cell neighbour list the engine and its tests use are modelled. The neighbour list's order (x offset outermost) is a choice.
- Output order of `SimulateLife`: the result follows the insertion order of the next map, and `GetAliveCells` states that order. No lemma describes it in terms of the input, i.e. survivors first, then newborns in discovery order.
- Keyboard.ToLower: lower-cases only the ASCII letters A-Z. JavaScript's `toLowerCase` also maps other characters. Among those, only U+212A (Kelvin sign, to `k`) lands in ASCII, and `k` appears in no key name, so matching against the table is unaffected.
- The `UserInput` constructor's listener registration and `clearListeners` are not modelled (libraries/UserInput.ts:14-22): they manipulate the DOM.
- `makeReadonly` (libraries/UserInput.ts:79) is an identity function that only narrows the static type, so `get keys()` hands out the live `_keys` object and a holder sees later key events through it. `Keys` returns a snapshot of the flags at the time of the call; that live alias is not modelled.
- Rendering, the animation loop, random seeding and the event emitter are not part of this model. They are drawing and I/O around the core.
- No pan or zoom transform is modelled, because none appears in the repository's code.
- Periodic patterns (a blinker returning after two steps) are not proved. They are checkable cell by cell from `NextGenRule`, but the 25-cell case analysis is left out.
- `VisitCell`, `VisitNeighbor` and `SetBornNeighbors` are the bodies of the two `forEach` callbacks, written as methods of their own. The loop structure and the order of operations are those of the source.
