/**
 * The game state of src/App.jsx: the `useState` containers (`blocks`,
 * `target`, `score`, `highlightId`, `isFreeMode`) and the drag record
 * `draggingRef.current`, updated by the event handlers and by the timer
 * callbacks, each of which is a method here. Fresh ids come from the counter
 * `nextId`.
 */
module Game {
  import opened Optional
  import opened Blocks
  import opened BlockView
  import opened Collision
  import opened Rules

  /**
   * The drag record: nothing is dragged, or block `id` is, grabbed at
   * `(offsetX, offsetY)` from its anchor, last placed at
   * `(currentX, currentY)`, with the columns and cell size its element
   * carried when it was grabbed.
   */
  datatype Drag =
    | Idle
    | Dragging(id: Id, offsetX: real, offsetY: real, currentX: real, currentY: real, cols: int, cellSize: int)

  /**
   * The branch structure of `handlePointerUp` for block `dragId` released at
   * `(x, y)`: the collision search, then a merge attempt or a plain move.
   */
  method Release(bs: seq<Block>, dragId: Id, x: real, y: real, newId: Id, isFreeMode: bool, target: int)
    returns (r: DropResult)
    ensures r == Drop(bs, dragId, x, y, newId, isFreeMode, target)
  {
    var hit := CheckCollision(bs, dragId, x, y);
    if hit.Some? {
      var m := Merge(bs, dragId, hit.value, newId);
      if m.Merged? {
        r := DropResult(m.blocks, true, Completes(isFreeMode, m.value, target));
      } else {
        r := DropResult(bs, false, false);
      }
    } else {
      r := DropResult(Move(bs, dragId, x, y), false, false);
    }
  }

  class Game {
    var blocks: seq<Block>
    var target: int
    var score: nat
    var highlightId: Option<Id>
    var isFreeMode: bool
    var drag: Drag
    var nextId: Id

    /** The board invariant over the next unused id, and a target in range. */
    predicate Valid()
      reads this
    {
      BoardOk(blocks, nextId) && MinTarget <= target <= MaxTarget
    }

    /**
     * The initial state: an empty board, target 10, score 0, challenge mode,
     * nothing dragged. The mount effect then corresponds to calling
     * `NextLevel` and, once its timer fires, `PlaceStartingBlocks`.
     */
    constructor()
      ensures Valid()
      ensures blocks == [] && target == 10 && score == 0 && highlightId == None
      ensures !isFreeMode && drag == Idle && nextId == 0
    {
      blocks := [];
      target := 10;
      score := 0;
      highlightId := None;
      isFreeMode := false;
      drag := Idle;
      nextId := 0;
    }

    /**
     * `nextLevel` with `r = Math.random()`: a new target from 10 to 100 and
     * no highlight; the starting blocks arrive later, by `PlaceStartingBlocks`.
     */
    method NextLevel(r: real)
      requires Valid() && 0.0 <= r < 1.0
      modifies this
      ensures Valid()
      ensures target == NewTarget(r) && highlightId == None
      ensures blocks == old(blocks) && score == old(score) && isFreeMode == old(isFreeMode)
      ensures drag == old(drag) && nextId == old(nextId)
    {
      target := NewTarget(r);
      highlightId := None;
    }

    /**
     * The 50 ms timer of `nextLevel`: with a container of height `h` the board
     * becomes the two starting blocks; with no container (`None`) nothing
     * happens.
     */
    method PlaceStartingBlocks(h: Option<real>)
      requires Valid()
      modifies this
      ensures Valid()
      ensures h.None? ==> blocks == old(blocks) && nextId == old(nextId)
      ensures h.Some? ==> blocks == StartingBlocks(h.value, old(nextId), old(nextId) + 1) && nextId == old(nextId) + 2
      ensures target == old(target) && score == old(score) && highlightId == old(highlightId)
      ensures isFreeMode == old(isFreeMode) && drag == old(drag)
    {
      if h.None? {
        return;
      }
      StartingBlocksOk(h.value, nextId);
      blocks := StartingBlocks(h.value, nextId, nextId + 1);
      nextId := nextId + 2;
    }

    /** `rotateBlock(id)`: the block with the id takes its next shape. */
    method RotateById(id: Id)
      requires Valid()
      modifies this
      ensures Valid()
      ensures blocks == Rotate(old(blocks), id) && Total(blocks) == Total(old(blocks))
      ensures target == old(target) && score == old(score) && highlightId == old(highlightId)
      ensures isFreeMode == old(isFreeMode) && drag == old(drag) && nextId == old(nextId)
    {
      RotateKeepsBoard(blocks, nextId, id);
      blocks := Rotate(blocks, id);
    }

    /**
     * `spawnBlock(val)` in a container `w` by `h` pixels with
     * `r = Math.random()`: one new block with a fresh id is appended.
     */
    method SpawnBlock(val: int, w: real, h: real, r: real)
      requires Valid() && 1 <= val <= MaxValue && 0.0 <= r < 1.0
      modifies this
      ensures Valid()
      ensures blocks == Spawn(old(blocks), val, w, h, r, old(nextId)) && nextId == old(nextId) + 1
      ensures Total(blocks) == Total(old(blocks)) + val
      ensures target == old(target) && score == old(score) && highlightId == old(highlightId)
      ensures isFreeMode == old(isFreeMode) && drag == old(drag)
    {
      SpawnSpec(blocks, nextId, val, w, h, r);
      blocks := Spawn(blocks, val, w, h, r, nextId);
      nextId := nextId + 1;
    }

    /**
     * `splitBlock(id)`: a block above 1 gives one unit away to a new block;
     * a fresh id is spent only when the split happens.
     */
    method SplitBlock(id: Id)
      requires Valid()
      modifies this
      ensures Valid()
      ensures blocks == Split(old(blocks), id, old(nextId)) && Total(blocks) == Total(old(blocks))
      ensures nextId == if CanSplit(old(blocks), id) then old(nextId) + 1 else old(nextId)
      ensures target == old(target) && score == old(score) && highlightId == old(highlightId)
      ensures isFreeMode == old(isFreeMode) && drag == old(drag)
    {
      SplitKeepsBoard(blocks, nextId, id);
      var splits := CanSplit(blocks, id);
      assert Total(Split(blocks, id, nextId)) == Total(blocks) by {
        if splits {
          SplitSpec(blocks, id, nextId);
        } else {
          SplitNoOp(blocks, id, nextId);
        }
      }
      blocks, nextId := Split(blocks, id, nextId), if splits then nextId + 1 else nextId;
    }

    /**
     * `handlePointerDown` on block `id` at container coordinates `(px, py)`:
     * a press on the block's rotate button, or on a block that is not on the
     * board, is ignored; otherwise the block becomes the dragged one,
     * replacing any drag in progress.
     */
    method PointerDown(id: Id, onButton: bool, px: real, py: real)
      modifies this
      ensures onButton || Find(old(blocks), id).None? ==> drag == old(drag)
      ensures !onButton && Find(old(blocks), id).Some? ==>
        var b := Find(old(blocks), id).value;
        drag == Dragging(id, px - b.x, py - b.y, b.x, b.y, Cols(b.width), CellSize(b.value))
      ensures blocks == old(blocks) && target == old(target) && score == old(score)
      ensures highlightId == old(highlightId) && isFreeMode == old(isFreeMode) && nextId == old(nextId)
    {
      if onButton {
        return;
      }
      var found := Find(blocks, id);
      if found.None? {
        return;
      }
      var b := found.value;
      drag := Dragging(id, px - b.x, py - b.y, b.x, b.y, Cols(b.width), CellSize(b.value));
    }

    /**
     * `handlePointerMove` at container coordinates `(px, py)` in a container
     * `w` wide: the dragged block follows the pointer, its centre kept half
     * its width inside both walls, and the block under it is highlighted.
     */
    method PointerMove(px: real, py: real, w: real)
      modifies this
      ensures old(drag).Idle? ==> drag == Idle && highlightId == old(highlightId)
      ensures old(drag).Dragging? ==>
        var d := old(drag);
        var half := (d.cols * d.cellSize) as real / 2.0;
        var x := Clamp(half, w - half, px - d.offsetX);
        && drag == d.(currentX := x, currentY := py - d.offsetY)
        && highlightId == Collides(old(blocks), d.id, x, py - d.offsetY)
      ensures blocks == old(blocks) && target == old(target) && score == old(score)
      ensures isFreeMode == old(isFreeMode) && nextId == old(nextId)
    {
      if drag.Idle? {
        return;
      }
      var pixelWidth := drag.cols * drag.cellSize;
      var nextX := Clamp(pixelWidth as real / 2.0, w - pixelWidth as real / 2.0, px - drag.offsetX);
      var nextY := py - drag.offsetY;
      drag := drag.(currentX := nextX, currentY := nextY);
      highlightId := CheckCollision(blocks, drag.id, nextX, nextY);
    }

    /**
     * `handlePointerUp`: with a drag in progress, the block is dropped where
     * it was last placed (a merge, a rejected merge or a move, as `Drop`
     * says); a merge spends a fresh id and a completing merge scores one
     * point. The drag and the highlight are then cleared.
     */
    method PointerUp()
      requires Valid()
      modifies this
      ensures Valid()
      ensures old(drag).Idle? ==>
        blocks == old(blocks) && nextId == old(nextId) && score == old(score)
        && highlightId == old(highlightId) && drag == Idle
      ensures old(drag).Dragging? ==>
        var d := old(drag);
        var r := Drop(old(blocks), d.id, d.currentX, d.currentY, old(nextId), old(isFreeMode), old(target));
        && blocks == r.blocks
        && nextId == (if r.merged then old(nextId) + 1 else old(nextId))
        && score == (if r.scored then old(score) + 1 else old(score))
        && Total(blocks) == Total(old(blocks))
        && drag == Idle && highlightId == None
      ensures target == old(target) && isFreeMode == old(isFreeMode)
    {
      if drag.Idle? {
        return;
      }
      var d := drag;
      var r := Release(blocks, d.id, d.currentX, d.currentY, nextId, isFreeMode, target);
      assert BoardOk(r.blocks, if r.merged then nextId + 1 else nextId) && Total(r.blocks) == Total(blocks) by {
        DropSpec(blocks, nextId, d.id, d.currentX, d.currentY, isFreeMode, target);
      }
      blocks, drag, highlightId := r.blocks, Idle, None;
      nextId := if r.merged then nextId + 1 else nextId;
      score := if r.scored then score + 1 else score;
    }

    /** The 1500 ms timer a completing merge starts: the board is cleared. */
    method ClearBoard()
      requires Valid()
      modifies this
      ensures Valid()
      ensures blocks == [] && Total(blocks) == 0
      ensures target == old(target) && score == old(score) && highlightId == old(highlightId)
      ensures isFreeMode == old(isFreeMode) && drag == old(drag) && nextId == old(nextId)
    {
      blocks := [];
    }

    /** The mode button: challenge and free mode swap. */
    method ToggleMode()
      modifies this
      ensures isFreeMode == !old(isFreeMode)
      ensures blocks == old(blocks) && target == old(target) && score == old(score)
      ensures highlightId == old(highlightId) && drag == old(drag) && nextId == old(nextId)
    {
      isFreeMode := !isFreeMode;
    }

    /** The reset button: the board is emptied and a new level begins. */
    method ResetLevel(r: real)
      requires Valid() && 0.0 <= r < 1.0
      modifies this
      ensures Valid()
      ensures blocks == [] && target == NewTarget(r) && highlightId == None
      ensures score == old(score) && isFreeMode == old(isFreeMode) && drag == old(drag) && nextId == old(nextId)
    {
      blocks := [];
      NextLevel(r);
    }
  }
}
