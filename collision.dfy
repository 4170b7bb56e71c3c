/**
 * Drop-target detection (`checkCollision` in src/App.jsx): which other block
 * a dragged block's anchor point lies over. The footprint of each block is
 * computed from its stored data (centre `x`, bottom `y`, columns and cell
 * size) instead of from the page layout.
 */
module Collision {
  import opened Optional
  import opened Geometry
  import opened Blocks
  import opened BlockView

  /** The slack, in pixels, around a block's footprint: `thresholdY` and the `+ 25` of `thresholdX`. */
  const Slack: real := 25.0

  /** The absolute value of a real. */
  function Abs(a: real): (r: real)
    ensures r >= 0.0 && (r == a || r == -a)
  {
    if a < 0.0 then -a else a
  }

  /** The rendered width of a block in pixels: columns times the cell size. */
  function PixelWidth(b: Block): (r: int)
    ensures r >= CellSize(b.value)
  {
    Cols(b.width) * CellSize(b.value)
  }

  /** The rendered height of a block in pixels: `ceil(value / cols)` rows times the cell size. */
  function PixelHeight(b: Block): int {
    CeilDiv(b.value, Cols(b.width)) * CellSize(b.value)
  }

  /**
   * The point `(x, y)` is over block `b`: horizontally within half the block
   * width plus the slack of its centre, and vertically strictly between the
   * slack above its top edge and the slack below its bottom edge.
   */
  predicate Overlaps(b: Block, x: real, y: real) {
    && Abs(x - b.x) < PixelWidth(b) as real / 2.0 + Slack
    && b.y - PixelHeight(b) as real - Slack < y < b.y + Slack
  }

  /** Block `b` is a candidate drop target: another block than the dragged one, and under the point. */
  predicate Hits(b: Block, dragId: Id, x: real, y: real) {
    b.id != dragId && Overlaps(b, x, y)
  }

  /**
   * The position of the first block, in list order, that the point hits, or
   * -1 when there is none.
   */
  function FirstHit(bs: seq<Block>, dragId: Id, x: real, y: real): (r: int)
    ensures -1 <= r < |bs|
    ensures r >= 0 ==> Hits(bs[r], dragId, x, y)
    ensures forall j :: 0 <= j < |bs| && (r == -1 || j < r) ==> !Hits(bs[j], dragId, x, y)
  {
    if bs == [] then -1
    else if Hits(bs[0], dragId, x, y) then 0
    else
      var t := FirstHit(bs[1..], dragId, x, y);
      if t == -1 then -1 else t + 1
  }

  /** The id `checkCollision` reports: the first block hit, or none. */
  function Collides(bs: seq<Block>, dragId: Id, x: real, y: real): Option<Id> {
    var k := FirstHit(bs, dragId, x, y);
    if k == -1 then None else Some(bs[k].id)
  }

  /**
   * The reported id is never the dragged block's, belongs to a block under
   * the point, and every block before that one is missed; no id at all means
   * no other block is under the point.
   */
  lemma CollidesSpec(bs: seq<Block>, dragId: Id, x: real, y: real)
    ensures var r := Collides(bs, dragId, x, y);
      && (r.None? <==> forall j :: 0 <= j < |bs| ==> !Hits(bs[j], dragId, x, y))
      && (r.Some? ==> r.value != dragId)
      && (r.Some? ==> exists k :: 0 <= k < |bs| && bs[k].id == r.value && Overlaps(bs[k], x, y)
                                 && (forall j :: 0 <= j < k ==> !Hits(bs[j], dragId, x, y)))
  {
    var k := FirstHit(bs, dragId, x, y);
    if k >= 0 {
      assert bs[k].id == Collides(bs, dragId, x, y).value;
    }
  }

  /**
   * The horizontal reach is symmetric: the point hits a block exactly when
   * its mirror image about the block's centre does.
   */
  lemma OverlapsMirror(b: Block, x: real, y: real)
    ensures Overlaps(b, x, y) <==> Overlaps(b, 2.0 * b.x - x, y)
  {
    assert Abs(x - b.x) == Abs((2.0 * b.x - x) - b.x);
  }

  /** A block's own anchor point (its centre, just above its bottom edge) is over it. */
  lemma AnchorOverlaps(b: Block)
    requires b.value >= 1
    ensures Overlaps(b, b.x, b.y)
  {
    var c := Cols(b.width);
    var rows := CeilDiv(b.value, c);
    assert rows >= 1;
    MulMonotone(rows, 1, CellSize(b.value));
  }

  /** The search loop of `checkCollision`, with its early return, proved to compute `Collides`. */
  method CheckCollision(bs: seq<Block>, dragId: Id, x: real, y: real) returns (r: Option<Id>)
    ensures r == Collides(bs, dragId, x, y)
  {
    var i := 0;
    while i < |bs|
      invariant 0 <= i <= |bs|
      invariant forall j :: 0 <= j < i ==> !Hits(bs[j], dragId, x, y)
    {
      if bs[i].id != dragId && Overlaps(bs[i], x, y) {
        return Some(bs[i].id);
      }
      i := i + 1;
    }
    return None;
  }
}
