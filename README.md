# numberBlocks in Dafny

This is a model of the core of *numberBlocks*, a browser puzzle game. The
player drags numbered blocks onto each other to add them up, and tries to
reach a target value between 10 and 100. Each block is drawn as a grid of
unit cells, and its shape is chosen from the widths that lay its value out
within 10 columns and 12 rows.

- A rotate button cycles through those widths.
- A double click splits off one unit.
- Dropping a block onto another merges the two when the sum is at most 100.
- In challenge mode, a merge that reaches the target scores a point, clears
  the board and starts the next level. Free mode never scores.

The model has one module per concern:

| module | file | what it holds |
|---|---|---|
| `Optional` | `optional.dfy` | the `Option` type |
| `Geometry` | `geometry.dfy` | `getValidWidths`, the shape chooser. `ValidWidths` is the function; `GetValidWidths` is its search loop, proved to compute it. |
| `Colors` | `colors.dfy` | `getBlockStyle`, with CSS replaced by a small `Style` datatype |
| `BlockView` | `block_view.dfy` | the pure helpers of the block component: cell-size tier, columns and rows, face cell, `canTransform`, the 100 decorations and the split hint |
| `Blocks` | `blocks.dfy` | the block list, plus the rotate, split, merge and move updates as functions on `seq<Block>` |
| `Collision` | `collision.dfy` | `checkCollision`, as a specification function plus its loop as a method |
| `Rules` | `rules.dfy` | choosing the target, the starting board, spawn placement with its clamp, the drop decision and completion |
| `Game` | `game.dfy` | the React state (`blocks`, `target`, `score`, `highlightId`, `isFreeMode`) and the drag record, as a class whose methods are the event handlers and timer callbacks |

Fresh block ids come from a counter `nextId`. The board invariant `BoardOk`
says three things:

- ids are distinct, and all are below `nextId`;
- every value is between 1 and 100;
- every width is one of the value's shapes.

Every `Game` method keeps that invariant. Rotate, split, merge and move
keep the total of all values.

Three behaviours of the code are worth knowing, and the model keeps each:

- **Padded shapes.** The doc comment at src/utils/geometry.js:2-3 calls a
  width valid when the block forms a rectangle at most 12 tall and 10 wide.
  The fallback at src/utils/geometry.js:19-21 pads instead: a value from 11
  to 120 (which covers every value a merge can reach) with no exact shape
  gets the width `ceil(v/12)` with a partial last row.
  For example, 13 is drawn 2 wide and 7 tall (`ThirteenIsPadded`,
  `FallbackIsPadded`).
- **Pointer-down.** A press on a block while another is being dragged
  replaces the drag record.
- **Spawn cell size.** Spawning assumes a 28-pixel cell for values above
  10, while the renderer uses 32 pixels for 11 to 25. Only values 1 and 10
  are ever spawned, so the difference is never reached.

## Model

| member | source | states |
|---|---|---|
| Geometry.CeilDiv | src/utils/geometry.js:12 | `Math.ceil(a/b)` is the least `r` with `a <= r*b`, i.e. `(r-1)*b < a <= r*b` |
| Geometry.MinWidth | src/utils/geometry.js:12 | definition of `minWidthRequiredByHeight`; PaddedHeight, MinWidthDividing and FallbackWidth state its role |
| Geometry.UpperWidth | src/utils/geometry.js:13 | definition of the loop bound `Math.min(value, MAX_WIDTH)`; ValidWidthsExact and ShapesFitBox state it |
| Geometry.Fits | src/utils/geometry.js:14-16 | definition of the loop test (divides, height 2 to 12, never width 0); WindowSound, WindowComplete and ExactHeight state it |
| Geometry.Window | src/utils/geometry.js:13-18 | definition of the widths the loop pushes; WindowSound, WindowComplete, WindowAscending and WindowEmpty state it |
| Geometry.ValidWidths | src/utils/geometry.js:7-24 | the width list is never empty and every width is at least 1 |
| Geometry.GetValidWidths | src/utils/geometry.js:7-24 | the search loop over `[ceil(v/12), min(v,10)]` with its fallbacks returns exactly `ValidWidths(v)` |
| Geometry.WindowSound | src/utils/geometry.js:13-17 | every width the loop pushes lies in the window, divides `v`, and gives a height between 2 and 12 |
| Geometry.WindowComplete | src/utils/geometry.js:13-17 | every width of the window that divides `v` with a height between 2 and 12 is pushed |
| Geometry.WindowAscending | src/utils/geometry.js:13-17 | the pushed widths are strictly ascending |
| Geometry.ValidWidthsAscending | src/utils/geometry.js:7-24 | every result, fallbacks included, is strictly ascending (so `indexOf` finds a unique position) |
| Geometry.ValidWidthsExact | src/utils/geometry.js:12-18 | when some exact shape exists, `w` is in the result if and only if `ceil(v/12) <= w <= min(v,10)`, `w` divides `v`, and `2 <= v/w <= 12` |
| Geometry.SmallValuesStartNarrow | src/utils/geometry.js:8-20 | values 2 to 10 always have an exact shape, so the `[1]` fallback is unreachable for them; every value from 1 to 10 starts as a single column |
| Geometry.WindowEmpty | src/utils/geometry.js:13-19 | when no width of the window fits, nothing is pushed |
| Geometry.FallbackWidth | src/utils/geometry.js:19-22 | a value above 10 with no exact shape gets exactly `[ceil(v/12)]`; the `\|\| 2` alternative is never taken |
| Geometry.MinWidthDividing | src/utils/geometry.js:12-16 | for 11 to 120, if `ceil(v/12)` divides `v` then it is an exact shape |
| Geometry.FallbackIsPadded | src/utils/geometry.js:19-22 | for a fallback value from 11 to 120, the fallback width does not divide the value (the last row is partial), yet the height stays at most 12 |
| Geometry.PaddedHeight | src/utils/geometry.js:12 | for every value at least 1, width `ceil(v/12)` gives at most 12 rows |
| Geometry.ExactHeight | src/utils/geometry.js:14-16 | an exact shape's row count `ceil(v/w)` equals `v/w` |
| Geometry.ShapesFitBox | src/utils/geometry.js:7-24 | every width offered for a value from 1 to 120 is between 1 and 10, and gives at most 12 rows |
| Geometry.ThirteenIsPadded | src/utils/geometry.js:19-22 | 13 has no exact shape and is laid out 2 wide and 7 tall |
| Geometry.DivModUnique | src/utils/geometry.js:14-15 | `v / w` and `v % w` are fixed by any decomposition `q*w + r` with `0 <= r < w` |
| Geometry.CeilDivUnique | src/utils/geometry.js:12 | `ceil(a/b)` is the only `r` with `(r-1)*b < a <= r*b` |
| Colors.BlockStyle | src/utils/colors.js:7-27 | there is a style exactly for values at least 1 (the palette has no entry at or below 0); the glow appears exactly at 100 |
| Colors.Palette | src/utils/colors.js:9-20 | definition of the fixed table of 1 to 10; PaletteStyle states its use |
| Colors.PaletteStyle | src/utils/colors.js:8-21 | values 1 to 10 take the palette background, the faint border (red only for 10), and no glow |
| Colors.HundredStyle | src/utils/colors.js:23 | 100 is white with a red border and the glow |
| Colors.Hue | src/utils/colors.js:24-25 | definition of the hue; DecadeHue states its range and its order across decades |
| Colors.RedBorderOnTens | src/utils/colors.js:19-26 | for 1 to 100 the border is red exactly on the multiples of ten |
| Colors.DecadeHue | src/utils/colors.js:24-26 | 11 to 99 use HSL `(36*floor(v/10)) % 360`, saturation 85, lightness 75; the hue is a multiple of 36 below 360, the same within a decade and rising across decades |
| BlockView.CellSize | src/components/NumberBlock.jsx:15-19 | the cell size is always between 18 and 38 pixels |
| BlockView.CellSizeNonIncreasing | src/components/NumberBlock.jsx:15-19 | a larger value never gets a larger cell |
| BlockView.Cols | src/components/NumberBlock.jsx:12 | `width \|\| 1` is at least 1, and equals the width when the width is positive |
| BlockView.FaceIndex | src/components/NumberBlock.jsx:63 | the face column is the middle one: the only index `r` with `2r <= cols <= 2r+1`, i.e. `floor(cols/2)` |
| BlockView.CanTransform | src/components/NumberBlock.jsx:21-22 | definition of `canTransform`; CanTransformTwoShapes, NoRotationWithoutChoice and RenderDecorations state it |
| BlockView.Render | src/components/NumberBlock.jsx:10-108 | definition of what the component draws; RenderGrid, RenderDecorations and SplitHint state it |
| BlockView.RenderGrid | src/components/NumberBlock.jsx:12-64 | exactly `value` cells in `ceil(value/cols)` rows of `cols` with the last row non-empty; the grid is `cols*cellSize` wide; only cell `floor(cols/2)` has the face, and that cell exists when there are at least `cols` cells |
| BlockView.RenderDecorations | src/components/NumberBlock.jsx:21-99 | for a well-shaped block, the rotate button appears exactly when rotating the block would change it; the stars and the glow appear together, exactly on the largest mergeable value 100; the halo marks a merge target or a starred block |
| BlockView.SplitHint | src/components/NumberBlock.jsx:101 | for a block of a list with distinct ids, the scissors hint appears exactly when a double click would change the list |
| BlockView.CanTransformTwoShapes | src/components/NumberBlock.jsx:21-22 | for values of at least 2, a rotation is offered exactly when two different widths of `[ceil(v/12), min(v,10)]` divide the value into 2 to 12 rows |
| BlockView.NoRotationWithoutChoice | src/components/NumberBlock.jsx:21-22 | 1, and every value above 10 without an exact shape, offer no rotation |
| Blocks.Find | src/App.jsx:70 | `find` returns nothing if and only if no block has the id; otherwise it returns a block of the list with that id |
| Blocks.FindFirst | src/App.jsx:70 | the block `find` returns is the first of the list with the id: no earlier block carries it |
| Blocks.RemoveIds | src/App.jsx:76 | `filter` returns no more blocks than it was given, each from the list and without a removed id |
| Blocks.RemoveIdsAppend | src/App.jsx:76 | the filter distributes over concatenation and keeps or drops each single block by its id alone, so the survivors keep their order and multiplicity |
| Blocks.RemoveIdsMembers | src/App.jsx:145 | a block survives the filter if and only if it was in the list and its id is not removed |
| Blocks.IndexOf | src/App.jsx:43 | `indexOf` is -1 if and only if the width is absent; otherwise it is the first position holding it |
| Blocks.CyclicNextIsMod | src/App.jsx:44 | the next position equals `(currentIndex + 1) % length`, including from -1 |
| Blocks.CyclicNext | src/App.jsx:44 | the next index is always a valid position; CyclicNextIsMod equates it with the source's `%` |
| Blocks.Rotate | src/App.jsx:39-46 | rotation keeps the length; RotateKeepsBoard, RotateTimesAt and RotateListCycle state the rest |
| Blocks.RotateBlock | src/App.jsx:39-46 | rotation changes only the width: id, value and position stay |
| Blocks.RotateStep | src/App.jsx:41-45 | a single-shape value does not rotate; an unknown width moves to the first shape; each shape moves to the next one, and the last wraps to the first |
| Blocks.RotateN | src/App.jsx:39-46 | rotating any number of times keeps id, value and position |
| Blocks.AdvanceWraps | src/App.jsx:44 | within one turn, `n` cyclic steps from `k` reach `k+n`, wrapped once |
| Blocks.RotateNWidth | src/App.jsx:43-45 | after `n` rotations a block is `n` positions further round its width list |
| Blocks.RotateFrom | src/App.jsx:43-45 | from list position `k`, one rotation reaches the cyclically next position |
| Blocks.RotateFullCycle | src/App.jsx:39-46 | a well-shaped block rotated as many times as its value has shapes is back to itself |
| Blocks.RotateNFixed | src/App.jsx:42 | a single-shape block is a fixed point of rotation |
| Blocks.RotateTimesAt | src/App.jsx:39-46 | rotating the list `n` times rotates exactly the blocks with the id `n` times |
| Blocks.RotateListCycle | src/App.jsx:37-47 | on a board, a full cycle of rotations restores the whole list |
| Blocks.RotateKeepsBoard | src/App.jsx:37-47 | rotation keeps the total, every other block, and the board invariant |
| Blocks.TotalAppend | src/App.jsx:148 | the total of a concatenation is the sum of the totals |
| Blocks.TotalSnoc | src/App.jsx:64 | appending a block adds its value to the total |
| Blocks.TotalSameValues | src/App.jsx:157 | lists with the same values position by position have the same total |
| Blocks.RemoveAbsent | src/App.jsx:76 | filtering out ids that are not present changes nothing |
| Blocks.RemoveKeepsUnique | src/App.jsx:76 | the filter keeps ids distinct |
| Blocks.RemoveOne | src/App.jsx:76 | with distinct ids, filtering a present id drops exactly one block and its value |
| Blocks.RemoveTwice | src/App.jsx:145 | filtering one id set and then another equals filtering their union |
| Blocks.FindAfterRemove | src/App.jsx:139-145 | after filtering, a surviving id is still found, as the same block |
| Blocks.Reduced | src/App.jsx:72-74 | the block left after a split keeps id and position, has one unit less, and takes a shape of the new value |
| Blocks.SplitOff | src/App.jsx:75 | definition of the new unit block; SplitSpec states where it lands |
| Blocks.CanSplit | src/App.jsx:70-71 | definition of the split guard; SplitSpec, SplitNoOp and SplitHint state it |
| Blocks.Split | src/App.jsx:69-77 | definition of `splitBlock`'s update; SplitSpec, SplitNoOp and SplitKeepsBoard state it |
| Blocks.SplitSpec | src/App.jsx:67-78 | an accepted split keeps the total and adds one block: the others in order, then the reduced block, then a unit block 50 pixels to the right |
| Blocks.SplitNoOp | src/App.jsx:70-71 | splitting a missing block, or one of value 1 or less, changes nothing |
| Blocks.SplitKeepsBoard | src/App.jsx:67-78 | a split that uses the next id keeps the board invariant |
| Blocks.RemoveKeepsBoard | src/App.jsx:76 | the filter keeps the board invariant |
| Blocks.BoardSnocFresh | src/App.jsx:148 | appending a well-shaped block with the next id keeps the invariant, with the next id moved up by one |
| Blocks.BoardSnoc | src/App.jsx:64 | appending a well-shaped block with an id below the new next id, different from every other id, keeps the invariant |
| Blocks.Merge | src/App.jsx:141-143 | an accepted merge never produces a value above 100 |
| Blocks.MergedBlock | src/App.jsx:147 | the merged block has the fresh id, the sum, the target's position, and a shape of the sum |
| Blocks.MergeSpec | src/App.jsx:138-148 | an accepted merge of two distinct blocks keeps the total, has one block fewer, keeps the others in order, and ends with the sum at the target's position in its first shape |
| Blocks.RemoveBoth | src/App.jsx:145 | filtering two distinct present ids drops two blocks and their values |
| Blocks.MergeRejected | src/App.jsx:141-143 | a missing block or a sum above 100 rejects the merge |
| Blocks.MergeSymmetric | src/App.jsx:138-148 | dragging either block onto the other is accepted alike, gives the same sum and keeps the same other blocks |
| Blocks.MergeKeepsBoard | src/App.jsx:138-148 | an accepted merge using the next id keeps the board invariant |
| Blocks.MergedListOk | src/App.jsx:145-148 | the filtered list plus the merged block satisfies the invariant for the next id plus one |
| Blocks.MergedWellShaped | src/App.jsx:146-147 | a merged block with a sum from 1 to 100 has a valid shape |
| Blocks.InBoard | src/App.jsx:139-142 | every block on a board has a value from 1 to 100 and an id below the next one |
| Blocks.Move | src/App.jsx:157 | a move keeps the length of the list |
| Blocks.MoveSpec | src/App.jsx:155-157 | a move changes only the position of the dragged block, to the drop point; it keeps ids, values, widths, the total and the board invariant |
| Collision.Abs | src/App.jsx:95 | `Math.abs` is non-negative and equals the argument or its negation |
| Collision.PixelWidth | src/App.jsx:91 | a block is at least one cell wide in pixels |
| Collision.PixelHeight | src/App.jsx:90-92 | definition of `heightUnits * bSize`; AnchorOverlaps uses it |
| Collision.Overlaps | src/App.jsx:93-96 | definition of the inside-x and inside-y test; OverlapsMirror and AnchorOverlaps state it |
| Collision.Hits | src/App.jsx:81-97 | definition of a candidate target: not the dragged block, and under the point; FirstHit and CollidesSpec state it |
| Collision.Collides | src/App.jsx:80-100 | definition of `checkCollision`'s result; CollidesSpec and CheckCollision state it |
| Collision.FirstHit | src/App.jsx:82-99 | the result is -1 or a position whose block is another block under the point, and no earlier block is hit (with -1, no block at all) |
| Collision.CollidesSpec | src/App.jsx:80-100 | no id is returned if and only if no other block is under the point; a returned id is never the dragged block's, and it belongs to the first block under the point |
| Collision.OverlapsMirror | src/App.jsx:93-95 | the horizontal test is symmetric about the block's centre |
| Collision.AnchorOverlaps | src/App.jsx:90-96 | a block's own centre-bottom anchor is inside its footprint |
| Collision.CheckCollision | src/App.jsx:80-100 | the loop with its early return gives exactly `Collides` |
| Rules.NewTarget | src/App.jsx:22 | `Math.floor(r*91)+10` is between 10 and 100 for `r` in `[0,1)` |
| Rules.EveryTargetReachable | src/App.jsx:22 | every target from 10 to 100 is drawn for some `r` in `[0,1)` |
| Rules.StartingBlocks | src/App.jsx:27-30 | definition of the starting board; StartingBlocksOk states it |
| Rules.StartingBlocksOk | src/App.jsx:27-30 | a level starts with two unit blocks of width 1, 10 pixels above the floor, total 2, forming a board with two fresh ids |
| Rules.Clamp | src/App.jsx:55 | `Math.max(lo, Math.min(hi, x))` is at least `lo`, at most `hi` when `lo <= hi`, and is `x` when `x` lies between them |
| Rules.SpawnCellSize | src/App.jsx:54 | definition of the cell size spawn assumes; SpawnPixelWidth states its bound |
| Rules.SpawnPixelWidth | src/App.jsx:52-54 | the reserved width is at least 28 pixels |
| Rules.Spawned | src/App.jsx:52-63 | the new block has the fresh id, the value, the first shape, and sits 10 pixels above the floor |
| Rules.SpawnedInside | src/App.jsx:54-55 | the spawned block is never left of `pw/2 + 20`, and is at most `W - pw/2 - 20` when the container is wide enough |
| Rules.Spawn | src/App.jsx:64 | spawning adds one block |
| Rules.SpawnSpec | src/App.jsx:49-65 | spawning keeps the existing blocks, adds the value to the total, and keeps the board invariant for a fresh id and a value from 1 to 100 |
| Rules.Completes | src/App.jsx:149 | definition of the completion test; DropSpec and CompletionSymmetric state it |
| Rules.Drop | src/App.jsx:137-158 | a drop scores only if it merges |
| Rules.DropRejected | src/App.jsx:141-143 | a drop onto a block whose sum with the dragged one exceeds 100 leaves the list as it was and scores nothing |
| Rules.DropSpec | src/App.jsx:133-158 | a drop keeps the total and the board invariant; a merge removes one block and scores if and only if the merged value completes the level in challenge mode; a move keeps the count |
| Rules.CompletionSymmetric | src/App.jsx:149 | which block is dragged onto which does not change acceptance or completion |
| Game.Release | src/App.jsx:137-158 | the pointer-up branches (collision, merge attempt, move) compute exactly `Drop` |
| Game.Game.constructor | src/App.jsx:13-19 | the initial state: empty board, target 10, score 0, no highlight, challenge mode, no drag; the mount effect at src/App.jsx:35 is the environment then calling `NextLevel` and, 50 ms later, `PlaceStartingBlocks` |
| Game.Game.NextLevel | src/App.jsx:21-33 | a new target from 10 to 100 and the highlight cleared; nothing else changes |
| Game.Game.PlaceStartingBlocks | src/App.jsx:24-31 | the 50 ms timer: with a container the board becomes the two starting blocks with two fresh ids; without one, nothing changes |
| Game.Game.RotateById | src/App.jsx:37-47 | the board becomes `Rotate(blocks, id)`, with the same total; the invariant is kept |
| Game.Game.SpawnBlock | src/App.jsx:49-65 | the board gains the spawned block with a fresh id, and the total grows by its value; the invariant is kept |
| Game.Game.SplitBlock | src/App.jsx:67-78 | the board becomes `Split(blocks, id, nextId)` with the same total; a fresh id is spent exactly when the split happens |
| Game.Game.PointerDown | src/App.jsx:102-113 | a press on the rotate button, or on an absent block, is ignored; otherwise the drag records the grab offset, the block's position, its columns and its cell size |
| Game.Game.PointerMove | src/App.jsx:115-131 | with a drag, the block follows the pointer, its centre clamped half its width inside the container, and the highlight is the block under it; without one, nothing changes |
| Game.Game.PointerUp | src/App.jsx:133-165 | with a drag, the board becomes the `Drop` result; a merge spends a fresh id; the score rises by one exactly on completion; the total and the invariant are kept; the drag and the highlight are cleared |
| Game.Game.ClearBoard | src/App.jsx:152 | the completion timer empties the board |
| Game.Game.ToggleMode | src/App.jsx:178 | the mode button swaps challenge and free mode and changes nothing else |
| Game.Game.ResetLevel | src/App.jsx:188 | the reset button empties the board and starts a new level with a new target |

## Left out

- Sound (`playSound`, src/hooks/useAudio.js) has no effect on the state and is not modelled.
- Find: its own contract does not say the returned block is the first with the id. `FindFirst` states it.
- RemoveIds: its own contract states length and membership only. Order and multiplicity are stated by `RemoveIdsAppend`.
- Id generation (src/utils/ids.js) is replaced by the counter `nextId`, which gives distinct ids by construction.
- Page layout is not modelled. `checkCollision` reads each block's rectangle from the DOM; the model computes the footprint from the stored centre `x`, bottom `y`, columns and cell size, matching the component's `translate(-50%, -100%)` placement. The element lookups that can fail (`getElementById`, `containerRef.current`) are assumed to succeed, except the container check of the starting-block timer.
- Collision.Collides, Game.Game.PointerMove, Game.Game.PointerUp: the `left`/`top` the drag writes onto the element are not modelled. They agree with the stored position except after a rejected merge. There the stored block keeps its old position, but its element stays where it was dropped, because React does not rewrite an unchanged `left` prop. So until that block is next moved, the source finds it at the drop point while the model's `Collides` uses the stored position.
- Pointer capture and the `zIndex` and transition writes are left out.
- Timers are not scheduled. The 50 ms starting-block timer, the 1500 ms clear timer and the 400 ms `nextLevel` timer are methods the environment calls (`PlaceStartingBlocks`, `ClearBoard`, `NextLevel`). The mount effect at src/App.jsx:35 is likewise the environment calling `NextLevel` right after the constructor, then `PlaceStartingBlocks`. Pending timers are not tracked. So the model does not capture a timer firing after a reset. Nor does it capture that a second completion within the 1500 ms (which `PointerUp` does score) starts a second pending clear and next-level chain.
- `Math.random()` is a parameter `r` in `[0, 1)`. The container's width and height are parameters.
- JavaScript numbers are modelled as unbounded integers for values and widths, and as reals for pixel coordinates. IEEE rounding is not modelled.
- The component's JSX tree, class names and CSS strings are summarised by the `View` and `Style` records. The header, footer and spawn buttons are left out, except the mode and reset handlers.
- Game.Game.SpawnBlock: requires a value from 1 to 100, the range in which spawned blocks keep the board invariant. The buttons only spawn 1 and 10.
- Game.Game.PointerMove: reads the dragged element's columns and cell size from the snapshot taken at pointer-down. The source reads them from the element at each move; these differ only if the block changed shape during the drag.
