/**
 * The game rules of src/App.jsx beyond the list updates: choosing a level's
 * target, the starting board, where a spawned block lands, what a drop does
 * (merge onto the block under the pointer, or plain move) and when a merge
 * completes the level. The random draws are parameters `r` in `[0, 1)`.
 */
module Rules {
  import opened Optional
  import opened Geometry
  import opened Blocks
  import opened Collision

  // ---------------------------------------------------------------- levels

  /** The smallest and largest target a level may ask for. */
  const MinTarget: int := 10
  const MaxTarget: int := 100

  /** `Math.floor(r * 91) + 10`: the target drawn by `nextLevel` from `r = Math.random()`. */
  function NewTarget(r: real): (t: int)
    requires 0.0 <= r < 1.0
    ensures MinTarget <= t <= MaxTarget
  {
    (r * 91.0).Floor + 10
  }

  /** Every target from 10 to 100 is drawn for some `r` in `[0, 1)`. */
  lemma EveryTargetReachable(t: int)
    requires MinTarget <= t <= MaxTarget
    ensures var r := (t - 10) as real / 91.0;
      0.0 <= r < 1.0 && NewTarget(r) == t
  {
    var r := (t - 10) as real / 91.0;
    assert r * 91.0 == (t - 10) as real;
  }

  /** The board a level starts with: two unit blocks resting 10 pixels above the floor of a container `h` tall. */
  function StartingBlocks(h: real, id1: Id, id2: Id): seq<Block> {
    [Block(id1, 1, 80.0, h - 10.0, 1), Block(id2, 1, 150.0, h - 10.0, 1)]
  }

  /**
   * The starting board holds exactly two unit blocks of width 1 and total 2,
   * and with two fresh ids it satisfies the board invariant.
   */
  lemma StartingBlocksOk(h: real, next: Id)
    ensures var bs := StartingBlocks(h, next, next + 1);
      && |bs| == 2 && Total(bs) == 2
      && (forall k :: 0 <= k < 2 ==> bs[k].value == 1 && bs[k].width == 1 && bs[k].y == h - 10.0)
      && BoardOk(bs, next + 2)
  {
    var bs := StartingBlocks(h, next, next + 1);
    assert ValidWidths(1) == [1];
    assert Total(bs) == bs[0].value + Total(bs[1..]);
    assert Total(bs[1..]) == bs[1].value + Total(bs[2..]);
  }

  // ---------------------------------------------------------------- clamps and spawning

  /** `Math.max(lo, Math.min(hi, x))`. */
  function Clamp(lo: real, hi: real, x: real): (r: real)
    ensures r >= lo
    ensures lo <= hi ==> r <= hi
    ensures lo <= x <= hi ==> r == x
    ensures x < lo ==> r == lo
    ensures lo <= hi < x ==> r == hi
  {
    var m := if x < hi then x else hi;
    if m < lo then lo else m
  }

  /** The cell size `spawnBlock` assumes when it keeps a new block clear of the walls. */
  function SpawnCellSize(val: int): int {
    if val > 10 then 28 else 38
  }

  /** The width in pixels `spawnBlock` reserves for a new block of value `val`. */
  function SpawnPixelWidth(val: int): (pw: real)
    ensures pw >= 28.0
  {
    var w := ValidWidths(val)[0];
    MulMonotone(w, 1, SpawnCellSize(val));
    (w * SpawnCellSize(val)) as real
  }

  /**
   * `spawnBlock(val)`: a block of value `val` in the first shape of its
   * value, 10 pixels above the floor, at the random position `r * W` kept 20
   * pixels clear of both walls of a container `W` wide and `H` tall.
   */
  function Spawned(val: int, w: real, h: real, r: real, newId: Id): (b: Block)
    ensures b.id == newId && b.value == val && b.y == h - 10.0
    ensures b.width == ValidWidths(val)[0]
  {
    var pw := SpawnPixelWidth(val);
    Block(newId, val, Clamp(pw / 2.0 + 20.0, w - pw / 2.0 - 20.0, r * w), h - 10.0, ValidWidths(val)[0])
  }

  /**
   * The spawned block lies between `pw/2 + 20` and `W - pw/2 - 20` whenever
   * the container is wide enough for that interval, and never left of its
   * lower end.
   */
  lemma SpawnedInside(val: int, w: real, h: real, r: real, newId: Id)
    ensures var pw := SpawnPixelWidth(val); var b := Spawned(val, w, h, r, newId);
      && pw / 2.0 + 20.0 <= b.x
      && (pw / 2.0 + 20.0 <= w - pw / 2.0 - 20.0 ==> b.x <= w - pw / 2.0 - 20.0)
  {
  }

  /** The list after `spawnBlock`: the new block is appended. */
  function Spawn(bs: seq<Block>, val: int, w: real, h: real, r: real, newId: Id): (out: seq<Block>)
    ensures |out| == |bs| + 1
  {
    bs + [Spawned(val, w, h, r, newId)]
  }

  /**
   * Spawning leaves the existing blocks as they were, adds the value to the
   * total, and with a fresh id and a value from 1 to 100 keeps the board
   * invariant.
   */
  lemma SpawnSpec(bs: seq<Block>, next: Id, val: int, w: real, h: real, r: real)
    ensures var out := Spawn(bs, val, w, h, r, next);
      && out[..|bs|] == bs
      && out[|bs|] == Spawned(val, w, h, r, next)
      && Total(out) == Total(bs) + val
      && (BoardOk(bs, next) && 1 <= val <= MaxValue ==> BoardOk(out, next + 1))
  {
    var b := Spawned(val, w, h, r, next);
    TotalSnoc(bs, b);
    assert (bs + [b])[..|bs|] == bs;
    if BoardOk(bs, next) && 1 <= val <= MaxValue {
      BoardSnoc(bs, b, next, next + 1);
    }
  }

  // ---------------------------------------------------------------- dropping

  /** A merge that reaches the target completes the level, but only in challenge mode. */
  predicate Completes(isFreeMode: bool, value: int, target: int) {
    !isFreeMode && value == target
  }

  /** What releasing a dragged block does. */
  datatype DropResult = DropResult(blocks: seq<Block>, merged: bool, scored: bool)

  /**
   * The list update of `handlePointerUp` for block `dragId` released at
   * `(x, y)`: over another block it tries to merge (a rejected merge changes
   * nothing); over no block it moves there.
   */
  function Drop(bs: seq<Block>, dragId: Id, x: real, y: real, newId: Id, isFreeMode: bool, target: int): (r: DropResult)
    ensures r.scored ==> r.merged
  {
    match Collides(bs, dragId, x, y)
    case None => DropResult(Move(bs, dragId, x, y), false, false)
    case Some(t) =>
      var m := Merge(bs, dragId, t, newId);
      if m.Rejected? then DropResult(bs, false, false)
      else DropResult(m.blocks, true, Completes(isFreeMode, m.value, target))
  }

  /**
   * A drop onto a block whose sum with the dragged one exceeds 100 leaves the
   * list exactly as it was, the dragged block's stored position included,
   * and scores nothing.
   */
  lemma DropRejected(bs: seq<Block>, dragId: Id, x: real, y: real, newId: Id, isFreeMode: bool, target: int, t: Id)
    requires Collides(bs, dragId, x, y) == Some(t)
    requires Find(bs, dragId).Some? && Find(bs, t).Some?
    requires Find(bs, dragId).value.value + Find(bs, t).value.value > MaxValue
    ensures Drop(bs, dragId, x, y, newId, isFreeMode, target) == DropResult(bs, false, false)
  {
    MergeRejected(bs, dragId, t, newId);
  }

  /**
   * On a board, a drop keeps the total of all values and the board
   * invariant (with the next id spent only by a merge); a merge has one block
   * fewer and scores exactly when it completes the level; a move keeps the
   * number of blocks.
   */
  lemma DropSpec(bs: seq<Block>, next: Id, dragId: Id, x: real, y: real, isFreeMode: bool, target: int)
    requires BoardOk(bs, next)
    ensures var r := Drop(bs, dragId, x, y, next, isFreeMode, target);
      && Total(r.blocks) == Total(bs)
      && BoardOk(r.blocks, if r.merged then next + 1 else next)
      && (r.merged ==> |r.blocks| == |bs| - 1)
      && (r.merged ==> (r.scored <==> Completes(isFreeMode, r.blocks[|r.blocks| - 1].value, target)))
      && (!r.merged ==> |r.blocks| == |bs|)
  {
    CollidesSpec(bs, dragId, x, y);
    match Collides(bs, dragId, x, y)
    case None =>
      MoveSpec(bs, next, dragId, x, y);
    case Some(t) =>
      var m := Merge(bs, dragId, t, next);
      if m.Merged? {
        var s, u := Find(bs, dragId).value, Find(bs, t).value;
        MergeSpec(bs, dragId, t, next, s, u);
        MergeKeepsBoard(bs, next, dragId, t, s, u);
      }
  }

  /**
   * Whichever of two blocks is dragged onto the other, the merge is accepted
   * alike and completes the level alike, since the sum does not depend on the
   * order.
   */
  lemma CompletionSymmetric(bs: seq<Block>, a: Id, c: Id, newId: Id, isFreeMode: bool, target: int)
    ensures var m, m' := Merge(bs, a, c, newId), Merge(bs, c, a, newId);
      && m.Merged? == m'.Merged?
      && (m.Merged? ==> (Completes(isFreeMode, m.value, target) <==> Completes(isFreeMode, m'.value, target)))
  {
    MergeSymmetric(bs, a, c, newId);
  }
}
