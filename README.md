# Snake game-state engine in Dafny

This project models the state engine of a browser snake game and proves properties of the model. The engine has three layers:

- **Toroidal coordinates** (`src/classes/Position.ts`). Positions wrap around an `n`-by-`n` board through `trimCoordinate`. A position steps one cell with `to(direction)`, is compared with `isEqual`, and is keyed by the string `(x|y)`.
- **The snake's body** (`src/classes/DLNode.ts`, `src/classes/DLList.ts`). The body is a doubly-linked list: `prev` points toward the tail and `next` toward the head. A `DLList` walks `prev` from the head to build its `array` snapshot and its `tail`.
- **The board** (`src/reducers/board.tsx`). A board snapshot holds a size, the snake, the food, a game-over flag, a timer flag and a direction. Every new `Board` rebuilds an object index keyed by `(x|y)`. The operations `placeFood`, `startTimer`, `stopTimer`, `setDirection`, `move` and `moveTo` each build a new snapshot. `BoardReducer` dispatches the game's actions to them.

Files:

- `wrappers.dfy`: `Option` and `Result`.
- `positions.dfy`: `Position.ts` and the `Direction` enum.
- `dlnode.dfy`: `DLNode.ts`, as a class whose methods rewire `prev`/`next` in place.
- `dllist.dfy`: `DLList.ts`, as a class over those nodes. Its specification is the sequence of values from head to tail.
- `board.dfy`: `board.tsx`. Snapshots are values, and the snake is abstracted to its cells from head to tail. `MoveBody` and `GrowBody` connect that abstraction to the list operations that `moveTo` performs.
- `board_invariants.dfy`: the invariants every snapshot keeps, proved for every operation and action:
  - cells on the board;
  - no cell listed twice;
  - food never under the snake;
  - consecutive body segments are neighbours on the torus.
- `scenarios.dfy`: concrete games worked through the model.

Integers are unbounded. JavaScript's `%` truncates toward zero, so the model writes it out (`JsRem`) and proves that `trimCoordinate` equals the Euclidean remainder. The random choice in `getFreeCell` becomes a parameter `draw`, which selects one of the free cells. `FreeCellDrawable` proves that every free cell is some draw's outcome.

## Model

| member | source | states |
|---|---|---|
| Positions.JsRem | src/classes/Position.ts:11 | JavaScript's `x % n`: magnitude below `n`, the dividend's sign, congruent to `x` modulo `n` |
| Positions.TrimCoordinate | src/classes/Position.ts:10-12 | the result lies in `[0, n)` for every integer `x`, is congruent to `x`, and is the identity on `[0, n)` |
| Positions.WrapAround | src/classes/Position.ts:10-12 | `-1` wraps to `n-1` and `n` wraps to `0` |
| Positions.TrimShift | src/classes/Position.ts:10-12 | trimming before adding an offset gives the same cell as trimming after |
| Positions.Trim | src/classes/Position.ts:14-19 | the result is on the board, congruent per coordinate, and unchanged for a cell already on the board (so `trim` is idempotent) |
| Positions.To | src/classes/Position.ts:21-32 | exactly one coordinate changes, by exactly one: UP/DOWN move `y`, LEFT/RIGHT move `x`, DOWN/RIGHT increase |
| Positions.StepWraps | src/classes/Position.ts:21-32 | from a cell on the board, trimming one step gives the torus neighbour, re-entering on the opposite edge |
| Positions.TrimTo | src/reducers/board.tsx:162 | trimming the start cell first does not change where the trimmed step lands |
| Positions.StepBack | src/classes/Position.ts:21-32 | a step followed by the opposite step returns to the start, both on the plane and on the torus |
| Positions.IntToString | src/classes/Position.ts:35 | number formatting: non-empty, a leading `-` exactly for negatives, decimal digits otherwise |
| Positions.IntToStringInjective | src/classes/Position.ts:35 | two integers format alike exactly when they are equal |
| Positions.Key | src/classes/Position.ts:34-36 | the key is bracketed by parentheses and contains the separator between the coordinates |
| Positions.KeyInjective | src/classes/Position.ts:34-36 | two positions have the same key exactly when they are equal |
| Positions.KeysInjective | src/classes/Position.ts:34-36 | the key function is injective on all positions |
| Positions.IsEqual | src/classes/Position.ts:38-40 | true exactly for structurally equal positions, hence reflexive and symmetric |
| DLNodes.DLNode.constructor | src/classes/DLNode.ts:2-8 | a new node holds its value and has no neighbours |
| DLNodes.DLNode.Link | src/classes/DLNode.ts:24-31 | writes `next.prev` and `prev.next`, skips a null argument, and leaves every other link as it was |
| DLNodes.DLNode.Append | src/classes/DLNode.ts:10-17 | returns `node`; with `isNext`, `node` becomes this node's `next` neighbour, otherwise its `prev` neighbour; the far links are kept |
| DLNodes.DLNode.Delete | src/classes/DLNode.ts:19-22 | the former neighbours are linked to each other, or see null at an end, and the node ends with no neighbours |
| DLLists.DLList.Values | src/classes/DLList.ts:18 | the values of the `array` nodes, from head to tail |
| DLLists.DLList.constructor | src/classes/DLList.ts:5-14 | along an acyclic `prev` chain from `head`, `array` is that chain and `tail` is its last node |
| DLLists.DLList.AppendToHead | src/classes/DLList.ts:20-22 | on any chain, including one whose head still points at a dropped node, the new list's values are `[node.value]` followed by the old ones, with the same tail; the old head's `next` is overwritten to point at `node`, and the old list stays a chain |
| DLLists.DLList.AppendToTail | src/classes/DLList.ts:24-27 | the new list's values are the old ones followed by `node.value`, with the same head, whose `next` is untouched |
| DLLists.DLList.DeleteTail | src/classes/DLList.ts:38-45 | fails exactly on a one-node list; otherwise the values lose the last one, the head is kept, and the old tail is fully unlinked |
| DLLists.DLList.DeleteHead | src/classes/DLList.ts:29-36 | as written: fails exactly on a one-node list; otherwise returns a list of only the removed head |
| DLLists.DLList.DeleteHeadCorrected | src/classes/DLList.ts:29-36 | as intended: fails exactly on a one-node list; otherwise the values lose the first one, with the same tail |
| DLLists.Single | src/reducers/board.tsx:79 | a fresh one-node list holding the given value |
| DLLists.StaleHeadAppend | src/classes/DLList.ts:20-22 | appending twice to the same list, as after a dropped growing move, yields `[2, 1]` then `[3, 1]`, and the head is relinked to the second new node |
| DLLists.DeleteHeadCounterexample | src/classes/DLList.ts:33-35 | on the list `[1, 2]`, the code as written yields `[1]` where `[2]` is intended |
| Boards.InitialSnake | src/reducers/board.tsx:77-80 | one segment on the centre cell `(floor(size/2), floor(size/2))` |
| Boards.Initial | src/reducers/board.tsx:36-44 | a fresh board has size 5, snake `[(2,2)]`, no food, game running, timer stopped and direction RIGHT |
| Boards.Tagged | src/reducers/board.tsx:101-106 | a position has an entry exactly when it is listed; the entry carries the kind and the position; every entry sits under its own key |
| Boards.Reducer | src/reducers/board.tsx:101-106 | the in-place fold builds exactly the tagged index of the positions |
| Boards.Objects | src/reducers/board.tsx:108-113 | the index holds exactly the snake and food cells, tagged SNAKE and FOOD, with food winning on a shared cell |
| Boards.UpdateObjects | src/reducers/board.tsx:108-113 | merging the snake's fold with the food's fold builds that index |
| Boards.ObjectAt | src/reducers/board.tsx:163 | the cell ahead has an entry exactly when the snake or the food holds it, and the entry is FOOD exactly when the food does |
| Boards.IndexKeys | src/reducers/board.tsx:108-113 | the index's keys are exactly the keys of the occupied cells |
| Boards.ObjectsCount | src/reducers/board.tsx:83 | the index has one entry per distinct occupied cell |
| Boards.CellsCount | src/reducers/board.tsx:83 | at most size² cells are occupied, and exactly size² when every board cell is |
| Boards.FullIffAllOccupied | src/reducers/board.tsx:82-85 | the index never exceeds size² entries, and has size² exactly when every board cell has an entry |
| Boards.FreeAmong | src/reducers/board.tsx:88-90 | keeps exactly the listed cells that have no entry |
| Boards.FreeCells | src/reducers/board.tsx:88-90 | lists exactly the board cells without an entry |
| Boards.FreeCellExists | src/reducers/board.tsx:82-92 | below size² entries, some board cell is free, so the retry loop can stop |
| Boards.GetFreeCell | src/reducers/board.tsx:82-92 | undefined exactly when the index has size² entries; otherwise a board cell that has no entry |
| Boards.FreeCellDrawable | src/reducers/board.tsx:88-90 | every free board cell is a possible outcome of the random choice |
| Boards.PlaceFood | src/reducers/board.tsx:62-75 | "Board is full" exactly at size² entries; otherwise the food gains one free board cell at the end, and no other field changes |
| Boards.StartTimer | src/reducers/board.tsx:115-124 | the timer is set and no other field changes |
| Boards.StopTimer | src/reducers/board.tsx:126-135 | the timer is cleared and no other field changes |
| Boards.IsOpposite | src/reducers/board.tsx:137-142 | true exactly for LEFT/RIGHT and UP/DOWN in either order, hence symmetric and irreflexive |
| Boards.SetDirection | src/reducers/board.tsx:144-155 | ignores a reversal of a snake longer than one cell, otherwise changes only the direction; the new direction of such a snake is never the opposite of the stored one |
| Boards.SetDirectionCorrected | src/reducers/board.tsx:144-155 | as intended: only the direction may change; every turn that does not lead into the neck is taken; a snake not facing its neck never faces it after any turn |
| Boards.NextHead | src/reducers/board.tsx:162 | the cell the head enters is on the board |
| Boards.Shifted | src/reducers/board.tsx:175 | the new head is in front and every old segment but the tail moves up one place |
| Boards.Eat | src/reducers/board.tsx:182-189 | the body grows by the entered cell at the head, and that cell leaves the food |
| Boards.MoveTo | src/reducers/board.tsx:161-199 | a free cell or a vacating tail (length not 2) shifts the snake; food grows it and places new food; any other snake cell only sets gameOver; the direction, size and timer carry over and gameOver is never cleared |
| Boards.Move | src/reducers/board.tsx:157-159 | a move in the stored direction |
| Boards.Reject | src/reducers/board.tsx:184 | the food without the entered cell and with every other cell; unchanged when the cell is absent; one shorter when it occurred once in duplicate-free food |
| Boards.RejectCounts | src/reducers/board.tsx:184 | every occurrence of the entered cell is removed and every other cell is kept as often as it occurred |
| Boards.MoveBody | src/reducers/board.tsx:175 | on any chain, the result is a fresh head node holding `h` in front of the old nodes but the tail, and the old tail is fully unlinked |
| Boards.GrowBody | src/reducers/board.tsx:185 | on any chain, the result is a fresh head node holding `h` in front of all the old nodes, and the old head's `next` points at it |
| Boards.BoardReducer | src/reducers/board.tsx:204-227 | only MOVE_SNAKE, PLACE_FOOD and TICK can fail; only RESET clears gameOver; RESET gives the fresh board with exactly one food |
| Boards.ResetNeverFull | src/reducers/board.tsx:212-213 | placing food on the fresh board never fails |
| BoardInvariants.InitialInvariant | src/reducers/board.tsx:37-44 | the fresh board satisfies the invariants |
| BoardInvariants.ObjectsSize | src/reducers/board.tsx:108-113 | on a well-formed board the index has one entry per snake cell and one per food cell |
| BoardInvariants.PlaceFoodFull | src/reducers/board.tsx:62-66 | on a well-formed board, "Board is full" exactly when snake and food together cover size² cells |
| BoardInvariants.AddFoodKeeps | src/reducers/board.tsx:67-74 | adding a free board cell to the food keeps the invariants |
| BoardInvariants.PlaceFoodKeeps | src/reducers/board.tsx:62-75 | `placeFood` keeps the invariants |
| BoardInvariants.HeadAdjacent | src/reducers/board.tsx:162 | the entered cell is a torus neighbour of the head |
| BoardInvariants.ShiftedKeeps | src/reducers/board.tsx:165-179 | shifting into a free cell or the vacating tail keeps the invariants |
| BoardInvariants.EatKeeps | src/reducers/board.tsx:181-188 | growing into the food ahead keeps the invariants |
| BoardInvariants.SettingsKeep | src/reducers/board.tsx:115-155 | turning (with either guard) and switching the timer keep the invariants |
| BoardInvariants.SameCellsKeep | src/reducers/board.tsx:115-155 | the invariants depend only on the size, the snake and the food |
| BoardInvariants.StepKeeps | src/reducers/board.tsx:165-179 | the plain-step branch succeeds and keeps the invariants |
| BoardInvariants.EatStepKeeps | src/reducers/board.tsx:181-190 | the food branch, new food included, keeps the invariants when it succeeds |
| BoardInvariants.EatOutcome | src/reducers/board.tsx:181-190 | below a full board, eating succeeds: the body gains the food cell at the head, the food count is kept, and gameOver is kept |
| BoardInvariants.CollisionKeeps | src/reducers/board.tsx:191-198 | the collision branch only sets gameOver and keeps the invariants |
| BoardInvariants.MoveToKeeps | src/reducers/board.tsx:161-199 | every move keeps the invariants |
| BoardInvariants.MoveToCounts | src/reducers/board.tsx:161-199 | a move keeps the length and the food, or grows the snake by one and keeps the food count; it fails only when snake and food already cover the board |
| BoardInvariants.ReducerKeeps | src/reducers/board.tsx:204-227 | every action keeps the invariants, and only RESET changes the size |
| Scenarios.StraightMove | src/reducers/board.tsx:161-179 | from the fresh board, a tick moves the head from (2,2) to (3,2) |
| Scenarios.WrapMove | src/reducers/board.tsx:161-179 | moving RIGHT from the last column re-enters in the first |
| Scenarios.EatFood | src/reducers/board.tsx:181-190 | a one-segment snake eating the only food grows to two segments, and one new food lies off the body |
| Scenarios.SelfCollision | src/reducers/board.tsx:191-198 | turning the head back into the body ends the game and changes nothing else |
| Scenarios.ReversalBlocked | src/reducers/board.tsx:144-155 | a three-segment snake heading RIGHT ignores a turn to LEFT |
| Scenarios.DoubleTurnReversal | src/reducers/board.tsx:145 | as written: from RIGHT, turning UP then LEFT passes the guard twice, and the next tick ends the game on the neck |
| Scenarios.DoubleTurnRefused | src/reducers/board.tsx:145 | with the corrected guard the second turn is refused and the snake keeps heading UP |
| Scenarios.UnknownKeepsState | src/reducers/board.tsx:224-225 | an unknown action returns the state, or the initial board when there is none |
| Scenarios.ReducerMovesBackwards | src/reducers/board.tsx:206-207 | MOVE_SNAKE has no reversal guard: a snake moved back into itself ends the game |
| Scenarios.OffBoardOverfull | src/reducers/board.tsx:83 | with food off a one-cell board, the index holds two entries, more than size², while the only board cell is taken |
| Scenarios.FullBoard | src/reducers/board.tsx:62-66 | on a one-cell board holding the snake, placing food fails with "Board is full" |

## Left out

- The BOMB object type (src/reducers/board.tsx:11): no operation creates one.
- React rendering, keyboard listeners, the interval timer and the store wiring: src/components/board/index.tsx and src/index.tsx are not part of this model. The action constructors in src/components/board/actions.tsx are replaced by the `Boards.Action` datatype.
- JavaScript numbers are modelled as unbounded integers. Board sizes are positive integers, and fractional or non-finite coordinates are not modelled.
- Boards.GetFreeCell: the `_.random` retry loop and `getRandomPos` (src/reducers/board.tsx:86-99) are replaced by a `draw` parameter that indexes the free cells. The uniform distribution and the loop's probabilistic termination are not modelled.
- Boards.GetFreeCell, Boards.PlaceFood, Boards.MoveTo and Boards.BoardReducer require every snake and food cell to lie on the board. Without it, off-board cells break the fullness test in two ways. The index can exceed size² entries while every board cell is taken; the test then fails and the retry loop never ends (Scenarios.OffBoardOverfull). The index can also reach exactly size² entries while a board cell is still free, and `placeFood` then reports "Board is full" wrongly. The `BoardInvariants` lemmas prove that every action keeps this condition.
- In the board model the snake is a sequence of cells. The sharing of `DLNode`s between old and new snapshots, and the in-place relinking of an old snapshot's nodes, are modelled only at the list level (`Boards.MoveBody`, `Boards.GrowBody`). Object identity (`return this` in `setDirection`) is not modelled.
- DLLists.DLList.AppendToHead, DLLists.DLList.AppendToTail: require a detached node that is not already in the list. Appending a linked node corrupts the source's lists, and that case is not modelled. The list itself may be any chain, whatever its head's `next` points at.
- DLLists.DLList.DeleteTail, DLLists.DLList.DeleteHead: require a head with nothing in front of it. In the game `deleteTail` only runs on the list `appendToHead` has just built, whose head is new; a one-node list whose head still points at a dropped node, where the source's `deleteTail` does not throw, is not modelled.
- DLLists.DLList.constructor: takes a ghost witness of an acyclic `prev` chain. On a cyclic chain the source's loop does not terminate, and that case is not modelled.
- Thrown errors ("Board is full", "Cannot delete head/tail because it's only node") are modelled as `Err` results.
- Boards.BoardReducer: SET_DIRECTION keeps the source's guard (Boards.SetDirection), so the double turn under "## Findings" stays possible in the reducer model; the corrected guard is proved separately.
- Boards.Reject: with Boards.RejectCounts it states which cells remain and how often, but not that they keep their order.
- The reducer's default state is modelled as `None` standing for the initial board.
- `stopTimer` is modelled, but no action dispatches it: `START_TIMER`'s counterpart is missing from the action set.
- TICK's dispatch to `move()` is stated by `Boards.BoardReducer`'s definition and covered by `BoardInvariants.ReducerKeeps`; it has no separate equation lemma.

## Findings

| source | as written | input that shows it | evidently intended | confidence | as-written member | corrected member |
|---|---|---|---|---|---|---|
| src/reducers/board.tsx:144-155 | the guard compares the turn only with the stored direction, so two turns between ticks reverse the snake | snake `[(2,2),(1,2),(0,2)]` heading RIGHT, SET_DIRECTION UP then LEFT, then TICK: gameOver | refuse a turn that leads the head into the neck, the segment behind it | not executed | Scenarios.DoubleTurnReversal | Boards.SetDirectionCorrected |
| src/classes/DLList.ts:29-36 | `deleteHead` unlinks the head, then builds the result from that detached head, so the list holds only the removed node | the list `[1, 2]` gives `[1]` | build the result from `newHead`, giving `[2]` | not executed | DLLists.DLList.DeleteHead | DLLists.DLList.DeleteHeadCorrected |
