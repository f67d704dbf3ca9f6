# Grid match-and-cascade engine of a tap-to-match puzzle

This project models the core of a Unity tile-matching puzzle in Dafny and
proves properties of that model. The level is a grid of cells. Each cell
holds an item of one of three types: a Color tile, a Breakable block or an
Obstacle. Tapping a
Full cell that holds a Color item starts a flood fill. The fill collects the
connected group of Full cells whose items have the tapped item's name, plus
the Breakable cells of another name next to that group. If the group has at
least three cells, every collected item takes one hit. Items whose health
reaches zero are removed. Then every affected column lets its items fall
into the holes and fills the remaining Empty cells with new items.

The files follow the C# classes:

- `Item.dfy`: `Item` (health, appearance index, `Damaged`).
- `GridPoint.dfy`: `GridPoint`, one cell with its state and item.
- `GridController.dfy`: `GridController`, which owns the `array2` of cells,
  builds the grid, resolves a selection and processes a match.
  - `MatchSet(origin)` is the specification of a match. It holds the cells
    joined to `origin` by a path of orthogonal steps through cells that are
    Full with the same item name.
  - `Fringe` is the specification of the breakables a match damages.
- `GridOperations.dfy`: `GridOperations`, with the neighbour queries, the
  breadth-first flood fill `GetMatches` and the cascade
  (`FillAndFall`, `FallColumn`, `FillColumn`, `FindFirstFullPoint`).
- `Column.dfy`: a column as a value, a `seq<Slot>` listed bottom first, and
  the predicates the cascade is proved against:
  - `Fallen`: the same items in the same order, the same obstacles, and no
    Empty cell below a Full one;
  - `FillsEmpty`: every Empty cell becomes Full with an item, nothing else
    changes;
  - `Refilled`: no Empty cell is left, the obstacles are untouched, and the
    column's items are still at its bottom in their order.
- `PlayerController.dfy`: the tap filter and the dispatch of the selection
  to the grid.

The grid's invariant is `GridController.Valid()`. It holds when:

- the array matches the size and each cell knows its own position;
- every cell is consistent (Empty exactly when it holds no item);
- no item is held by two cells.

`CreateGrid` establishes it. A tap preserves it.

The whole-grid methods are proved against ghost column maps: `ReadsAs(cols)`
says the cells read as `cols`. Each column method returns the new ghost map,
so a caller never has to reason about which cells a call may touch.

Some behaviours of the code differ from what a reader of the game's rules
might expect. The model follows the code:

- An Obstacle cell keeps the Obstacle item `CreateItem` gave it. It does not
  hold "no entity".
- Matching compares item names. Any Full cell whose item has the tapped
  item's name joins the match, whatever the item's type. A Breakable cell
  joins the fringe only when its name differs.
- No level-data check exists. The level's counts are taken as the grid's
  size, and each position's item id is read without a bounds check.
- When a column falls, `FindFirstFullPoint` skips every cell that is not
  Full, so items fall past Obstacle cells.

## Model

| member | source | states |
|---|---|---|
| Item.SetItem | Assets/Scripts/Level/Item.cs:23-30 | the item takes the model, and its maximum and current health are both the model's health; the appearance index is then 0 |
| Item.AppearanceIndex | Assets/Scripts/Level/Item.cs:35-39 | for a valid item that is still alive, the sprite index `MaxHealth - CurrHealth` lies in 0 .. MaxHealth-1, so it indexes a list of `MaxHealth` sprites |
| Item.Damaged | Assets/Scripts/Level/Item.cs:45-59 | health drops by exactly one; the result is true exactly when health is then at most zero; a valid item stays valid, and a surviving item's new sprite index lies in 1 .. MaxHealth-1 |
| DamageResults | Assets/Scripts/Level/Item.cs:45-59 | the results of consecutive hits: one per hit, and the first is "destroyed" exactly when health was at most one |
| DestroyedOnHthHit | Assets/Scripts/Level/Item.cs:45-59 | an item with health h ≥ 1 survives its first h-1 hits and is destroyed by hit h |
| DamageRepeatedly | Assets/Scripts/Level/Item.cs:45-59 | hitting an item n times in a row returns `DamageResults` of its old health and leaves its health exactly n lower; when n equals a health h ≥ 1, only the last hit reports the item destroyed |
| GridPoint.SetPoint | Assets/Scripts/Level/GridPoint.cs:26-33 | the cell takes its position, and its first item is created from the level's model for that position |
| GridPoint.CreateItem | Assets/Scripts/Level/GridPoint.cs:38-58 | the cell owns a fresh item built from the model; Color and Breakable models make it Full, an Obstacle model makes it Obstacle |
| GridPoint.RemoveItem | Assets/Scripts/Level/GridPoint.cs:63-67 | the cell holds no item and is Empty |
| GridPoint.AddNewItem | Assets/Scripts/Level/GridPoint.cs:72-79 | the cell holds the given item and is Full, whatever it was before |
| GridController.CreateGrid | Assets/Scripts/Level/GridController.cs:19-41 | the level's column and row counts fix the size; each cell is fresh, sits at its own position and holds a fresh item made from the level's item id for that position; the grid is Valid, so no two cells share an item |
| InitializeGridPoints | Assets/Scripts/Level/GridController.cs:46-62 | row by row, a fresh consistent cell is built for each position from the level's model, and each fresh item is recorded with the one position that holds it |
| GridController.OwnedItemsUnique | Assets/Scripts/Level/GridController.cs:46-62 | when each cell's item names that cell as its owner, no two cells hold the same item |
| GridController.GetPoint | Assets/Scripts/Level/GridController.cs:70-78 | the result is non-null exactly when (x, y) lies inside the grid, and then it is the cell at (x, y) |
| GridController.HandleGridPointSelection | Assets/Scripts/Level/GridController.cs:113-125 | the grid stays Valid; a match of fewer than three cells changes nothing; no item outside the targets' items (the match and its fringe, taken before the call) changes health, and every item a cell holds afterwards was held before or is fresh; otherwise every target's item loses one health, each column holding a target ends `Refilled` from its old self with the destroyed items cleared and every other column is unchanged (`CascadedFrom`), every item placed above a column's survivors is fresh, and no cell holds a destroyed item |
| GridController.SelectionKept | Assets/Scripts/Level/GridController.cs:115 | across the flood fill, which changes nothing, the grid stays Valid and the targets, the targets' items, the grid's columns and the items' health are those of the state before |
| GridController.ProcessMatchedPoints | Assets/Scripts/Level/GridController.cs:130-149 | the grid stays Valid; each target's item loses exactly one health and no other item's health changes; the grid is `CascadedFrom` its old self: each column holding a target ends `Refilled` from its old self with the destroyed items (health ≤ 1 before the hit) cleared, and every other column is unchanged; every item placed above a column's survivors is fresh; no cell holds a destroyed item; every item a cell holds was held before or is fresh |
| GridController.DamageAll | Assets/Scripts/Level/GridController.cs:134-146 | visiting the targets in any order, each item is hit once and no other item's health changes, and the grid ends as its old self with exactly the cells whose item was destroyed emptied |
| GridController.DamagePoint | Assets/Scripts/Level/GridController.cs:136-145 | one target: a cell without an item is skipped; otherwise its item loses one health, and the cell is emptied exactly when that destroys the item |
| GridController.HitTargets | Assets/Scripts/Level/GridController.cs:132-146 | each target's item loses exactly one health and no other item's health changes; the grid then reads as its old self with the cells of the destroyed items emptied, so a column without a target is unchanged; items stay in one cell each |
| ClearItemsFullItems | Assets/Scripts/Level/GridController.cs:134-146 | emptying the cells whose item is destroyed removes exactly those items from the column's list of items, keeping the order of the rest |
| SurvivorsAtBottom | Assets/Scripts/Level/GridController.cs:130-149 | after a match, the items of a touched column that survived are at its bottom in their old order |
| ClearKeepsUnique | Assets/Scripts/Level/GridController.cs:139-145 | emptying the cells of destroyed items keeps every item in at most one cell |
| NoneReturns | Assets/Scripts/Level/GridController.cs:134-148 | a column cleared of the destroyed items and then refilled with new items holds none of the destroyed items |
| CascadeOutcome | Assets/Scripts/Level/GridController.cs:130-149 | clearing the destroyed items and then falling and filling the target columns with new items leaves the grid `CascadedFrom` its old self, puts only new items above the survivors, and leaves no destroyed item in any cell |
| CascadedItems | Assets/Scripts/Level/GridController.cs:130-149 | after such a cascade every item a cell holds was held before or arrived above the survivors of its column |
| GridOperations.constructor | Assets/Scripts/Level/GridOperations.cs:10-13 | the operations object is bound to its grid |
| GridOperations.GetPointNeighbours | Assets/Scripts/Level/GridOperations.cs:94-122 | at most one neighbour per direction, each a cell of the grid |
| GridOperations.NeighboursAt | Assets/Scripts/Level/GridOperations.cs:94-122 | a cell is a neighbour exactly when it is a grid cell at the position one of the directions leads to; directions leading off the grid add nothing |
| GridOperations.OrthogonalNeighbours | Assets/Scripts/Level/GridOperations.cs:100-113 | asked for Left, Up, Right and Down, the neighbours are exactly the grid cells orthogonally next to the cell |
| GridOperations.NeighboursInOrder | Assets/Scripts/Level/GridOperations.cs:100-119 | the neighbours for a list of directions are those for its first part followed by those for the rest, so they come in the order of the directions |
| GridOperations.NeighbourInDirection | Assets/Scripts/Level/GridOperations.cs:102-117 | one direction yields exactly the grid cell it leads to, or nothing when it leads off the grid |
| GridOperations.OrthogonalOrder | Assets/Scripts/Level/GridOperations.cs:94-122 | for a cell away from the grid's edges, asked for Left, Up, Right and Down, the neighbours are exactly the left, upper, right and lower cells, in that order |
| SplitNeighboursAt | Assets/Scripts/Level/GridOperations.cs:73-86 | a neighbour is in the first group exactly when it is Full with the tapped name, and in the second exactly when it is Full with a Breakable item of another name |
| GridOperations.SameColorNeighboursAt | Assets/Scripts/Level/GridOperations.cs:66-89 | the same, stated for GetSameColorNeighbourPoints on a cell's neighbours |
| GridOperations.GetSameColorNeighbourPoints | Assets/Scripts/Level/GridOperations.cs:66-89 | the two groups together hold at most one cell per direction |
| GridOperations.ExpansionStep | Assets/Scripts/Level/GridOperations.cs:44 | expanding a cell of the match: its same-name neighbours all belong to the match, and the two groups are exactly its same-name and breakable neighbours |
| EnqueuedFacts | Assets/Scripts/Level/GridOperations.cs:46-52 | offering cells to the matched set matches all of them; the queue keeps its old entries, and each appended entry is a cell that was not matched before, appended only once; the queue grows exactly when the set grows |
| CollectedFacts | Assets/Scripts/Level/GridOperations.cs:54-57 | the collected breakables are the old ones plus the offered ones |
| FloodFillStep | Assets/Scripts/Level/GridOperations.cs:40-58 | one dequeue keeps the flood fill's invariant, including that every queued cell is matched, not yet expanded and queued only once; the matched set only grows, and if it does not, the queue shrinks |
| GridOperations.ExpandHead | Assets/Scripts/Level/GridOperations.cs:40-58 | the same for the actual neighbour groups, with the termination measure decreasing |
| GridOperations.GetMatches | Assets/Scripts/Level/GridOperations.cs:31-61 | the first result is exactly the match of the tapped cell; the second is exactly its fringe, the Breakable cells of another name next to the match; throughout the loop each queued cell is queued only once and never after it was expanded |
| GridController.OriginInMatchSet | Assets/Scripts/Level/GridOperations.cs:37-38 | the tapped cell belongs to its own match |
| GridController.MatchSetMembers | Assets/Scripts/Level/GridOperations.cs:75-80 | every other cell of a match is Full with the tapped item's name |
| GridController.MatchSetSameName | Assets/Scripts/Level/GridOperations.cs:75-80 | every cell of a match holds an item with the tapped item's name |
| GridController.MatchSetInFullCells | Assets/Scripts/Level/GridOperations.cs:75-80 | a match lies within the tapped cell and the cells Full with its name |
| GridController.MatchSetClosed | Assets/Scripts/Level/GridOperations.cs:46-52 | a Full cell with the same name next to a cell of the match is in the match |
| GridController.ClosedSetHoldsMatchSet | Assets/Scripts/Level/GridOperations.cs:40-58 | any set that holds the tapped cell and is closed under same-name adjacency holds the whole match |
| GridController.FloodFillComplete | Assets/Scripts/Level/GridOperations.cs:40-58 | when the queue is empty, the matched set is exactly the match |
| GridController.FringeCollected | Assets/Scripts/Level/GridOperations.cs:54-57 | the collected breakables are exactly the fringe of the match |
| GridController.MatchSetSymmetric | Assets/Scripts/Level/GridOperations.cs:31-61 | tapping any cell of a match made from a Full cell yields the same match |
| GridController.MatchStepsAt | Assets/Scripts/Level/GridOperations.cs:46-52 | each step of a match path moves to a neighbouring position whose cell is Full with the name |
| GridController.PathsJoin | Assets/Scripts/Level/GridOperations.cs:46-52 | two match paths that meet join into one |
| GridOperations.FillAndFall | Assets/Scripts/Level/GridOperations.cs:127-136 | every column holding a cleared cell first falls and then, after all falls, fills; such a column ends `Refilled` from its old self, and every item above its old items is one of the returned new items, all of them fresh; every other column is unchanged; every cell stays consistent; no item ends up in two cells; no item's health changes |
| GridOperations.FallColumns | Assets/Scripts/Level/GridOperations.cs:129-134 | the first phase: each column holding a cleared cell ends `Fallen` from its old self, and the returned list names each such column exactly once; every other column is unchanged |
| GridOperations.FillColumns | Assets/Scripts/Level/GridOperations.cs:131-135 | the second phase: each listed column ends `FillsEmpty` from its fallen self and every other column is unchanged; every item the fills put in is fresh |
| GridOperations.FallColumn | Assets/Scripts/Level/GridOperations.cs:141-158 | the column ends `Fallen`: the same items in the same order, the same obstacles, and no Empty cell below a Full one; other columns are untouched and items stay in one cell each |
| GridOperations.FallInto | Assets/Scripts/Level/GridOperations.cs:145-156 | one row: the column changes exactly as `FallStep` says: when the cell is Empty and some cell above it is Full, the lowest such cell's item moves down into it and that cell becomes Empty; otherwise nothing changes; items stay in one cell each |
| GridOperations.MoveDown | Assets/Scripts/Level/GridOperations.cs:153-154 | the Empty cell takes the Full cell's item and becomes Full, the Full cell becomes Empty, and nothing else changes; items stay in one cell each |
| GridOperations.FindFirstFullPoint | Assets/Scripts/Level/GridOperations.cs:183-195 | a non-null result is the lowest Full cell above the given one in its column; null means no cell above it is Full |
| FirstFullFrom | Assets/Scripts/Level/GridOperations.cs:183-195 | the index of the lowest Full cell at or above a row, or the column's height when there is none: no cell between the row and the result is Full |
| GridOperations.FillColumn | Assets/Scripts/Level/GridOperations.cs:163-178 | the column ends `FillsEmpty` from its old self: each Empty cell is Full with a fresh item at full health, created from a model as `CreateItem` creates it, and every other cell is as it was; all the items it put in are fresh; other columns are untouched and items stay in one cell each |
| GridOperations.FillInto | Assets/Scripts/Level/GridOperations.cs:169-175 | one row: an Empty cell gets a fresh item created from the chooser's pick for the (state, model) views of its orthogonal neighbours as they were before the call, and becomes Full; a cell that is not Empty is left as it was |
| MoveDownKeepsItems | Assets/Scripts/Level/GridOperations.cs:149-155 | moving the lowest Full cell above an Empty cell down into it keeps the column's items in their order |
| FallPastRow | Assets/Scripts/Level/GridOperations.cs:147-155 | moving an item down at row y keeps the fall's invariant past row y |
| FallSkipsRow | Assets/Scripts/Level/GridOperations.cs:147-151 | a row that is not Empty, or that has no Full cell above it, needs no move |
| FallStepPasses | Assets/Scripts/Level/GridOperations.cs:145-156 | one `FallStep` at row y, moving or not, keeps the fall's invariant past row y |
| FillAfterSettle | Assets/Scripts/Level/GridOperations.cs:163-178 | filling a settled column keeps its items at the bottom in their order, and every item above them was put there by the fill |
| FallThenFill | Assets/Scripts/Level/GridOperations.cs:127-136 | a fall followed by a fill refills the column |
| MoveKeepsUnique | Assets/Scripts/Level/GridOperations.cs:153-154 | moving an item down within a column keeps every item in at most one cell |
| AddKeepsUnique | Assets/Scripts/Level/GridOperations.cs:173-174 | a new item that no cell holds keeps every item in at most one cell |
| CascadeDone | Assets/Scripts/Level/GridOperations.cs:127-136 | once each touched column has fallen and then, in the second phase, filled, each touched column is `Refilled` from its state before the cascade, every item above its old items is one of the fills' new items, and every other column is as it was |
| ProcessGridPointSelection | Assets/Scripts/Player/PlayerController.cs:37-46 | a tap on a cell that is not Full with a Color item changes nothing; otherwise the grid stays Valid, no item outside the targets' items changes health, and a match of three or more cells leaves the grid `CascadedFrom` its old self with fresh arrivals and no destroyed item held; in every case each item a cell holds was held before or is fresh |

## Left out

- Animation and presentation are not modelled. This covers DOTween moves and their durations, transforms, sprites, the grid's centring, and `Destroy` with its one-second delay. `DeactivateItem` is left out too, and so is the `canFall` flag of `CreateItem`, which only chooses an animation.
- The fill's timing is not modelled. `FillColumn` runs as a delayed call, so all the falls of a cascade run before any fill. The model runs every fall and then every fill, in the same column order. The settling state between the two phases, and a tap that arrives during it, are not modelled.
- The order of targets and columns is not modelled. The source walks arrays built from hash sets. The model visits targets and columns in an arbitrary order of its own choosing, and its contracts hold for every order.
- FileManager is not part of this model:
  - its level counts and item ids are the parameters of `CreateGrid`;
  - `GetModel` is the `getModel` function;
  - `GetRandomItem` is replaced by the `chooser` function. The chooser is a fixed function of the (state, model) views of the cell's orthogonal neighbours, in the order Left, Up, Right, Down. The source's `GetRandomItem` is random and receives the neighbour cells themselves; that randomness is not modelled, and the contracts hold for every chooser.
- The chooser is assumed never to pick an Obstacle model. This assumption is `NeverObstacle`. It is what makes every filled cell Full.
- `LEItemType` is not part of this model. The model's item type has exactly the three cases Color, Breakable and Obstacle. For any other item type, `CreateItem` (Assets/Scripts/Level/GridPoint.cs:54-57) would leave the cell's state as it was; that case is not modelled.
- InitializeGridPoints: the level's item ids are a total function of the position, so the exception `levelGridInfo[x, y]` (Assets/Scripts/Level/GridController.cs:57) throws when the level array is smaller than its counts is not modelled.
- When the FileManager is missing, the size stays 0×0. This case is `CreateGrid(0, 0, ...)`. The error log is left out.
- The event plumbing is not modelled. This covers ActionManager, `OnEnable`/`OnDisable`, `OnGridPointSelected` and its parameter check, and the input raycast. `ProcessGridPointSelection` calls `HandleGridPointSelection` directly.
- GridController.HandleGridPointSelection: the `gridOperations?` null check and the `matches.Count < 2` check are not modelled. Neither can fail, because `Valid()` guarantees the operations object and `GetMatches` always returns two groups.
- GridController.HandleGridPointSelection: the method requires a cell that holds an item. The tap filter guarantees this, but the C# method would not check it if it were called directly.
- GridController.ProcessMatchedPoints: it states the cleared-then-refilled shape of each column and that the arrivals are fresh. It does not state which model each arrival was created from; `FillInto` states that per cell.
- GridOperations.FillColumn: it states that each filled cell was created from some model, not which neighbour views the chooser saw for it; `FillInto` states that per cell.
- Integer widths are not modelled. Health is an unbounded `int`, and the source's 32-bit `int` cannot overflow in practice.
- Grid positions are not floats. The source stores them in a float `Vector2` and casts them to `int`; the model uses integers.
- The `Breakable` cell state is not modelled as reachable. It exists in the enum, but no code sets it, and `GridPoint.Valid()` excludes it.

