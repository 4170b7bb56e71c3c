/**
 * The pure helpers of the block component (src/components/NumberBlock.jsx):
 * the cell-size tier, the grid dimensions, the face cell and the decorations.
 * The JSX tree itself is summarised by the `View` record.
 */
module BlockView {
  import opened Optional
  import opened Geometry
  import opened Colors
  import opened Blocks

  /** `blockSize`: the pixel size of one cell, smaller for larger values. */
  function CellSize(v: int): (r: int)
    ensures 18 <= r <= 38
  {
    if v > 80 then 18
    else if v > 50 then 22
    else if v > 25 then 28
    else if v > 10 then 32
    else 38
  }

  /** Larger values never get larger cells. */
  lemma CellSizeNonIncreasing(a: int, b: int)
    requires a <= b
    ensures CellSize(b) <= CellSize(a)
  {
  }

  /** `cols = width || 1`: a zero width is drawn as one column. */
  function Cols(width: nat): (r: int)
    ensures r >= 1
    ensures width >= 1 ==> r == width
  {
    if width == 0 then 1 else width
  }

  /** `Math.floor(cols / 2)`: the index of the cell that carries the face. */
  function FaceIndex(cols: int): (r: int)
    requires cols >= 1
    ensures 0 <= r < cols && 2 * r <= cols <= 2 * r + 1
  {
    cols / 2
  }

  /** `canTransform`: the rotate button is shown when there is another shape to rotate to. */
  predicate CanTransform(v: int) {
    |ValidWidths(v)| > 1
  }

  /** What the component renders for one block. */
  datatype View = View(
    cols: int,           // grid columns
    rows: int,           // grid rows
    cellSize: int,       // pixel size of a cell
    gridWidth: int,      // pixel width of the grid
    cells: seq<bool>,    // one entry per rendered cell, true on the face cell
    rotateButton: bool,  // the rotate control
    halo: bool,          // the blurred glow behind the block
    stars: bool,         // the stars beside the label
    splitHint: bool,     // the scissors hint
    style: Style)

  /** The component for a block of value `value` and width `width`. */
  function Render(value: int, width: nat, highlight: bool): (r: View)
    requires value >= 1
  {
    var cols := Cols(width);
    var size := CellSize(value);
    View(cols, CeilDiv(value, cols), size, cols * size,
         seq(value, i => i == FaceIndex(cols)),
         CanTransform(value), highlight || value == 100, value == 100, value > 1,
         BlockStyle(value).value)
  }

  /**
   * The rendered grid: exactly `value` cells in rows of `cols`, the last row
   * non-empty; the face is on the single cell `floor(cols/2)`, which exists
   * whenever there are at least `cols` cells; the grid is `cols` cells wide.
   */
  lemma RenderGrid(value: int, width: nat, highlight: bool)
    requires value >= 1
    ensures var r := Render(value, width, highlight);
      && |r.cells| == value
      && (r.rows - 1) * r.cols < value <= r.rows * r.cols
      && r.gridWidth == r.cols * r.cellSize
      && (forall i :: 0 <= i < |r.cells| ==> (r.cells[i] <==> i == FaceIndex(r.cols)))
      && (r.cols <= value ==> FaceIndex(r.cols) < |r.cells|)
  {
  }

  /**
   * The decorations, by what they promise: the rotate button appears exactly
   * on the blocks a rotation would change; the stars and the glow appear
   * together, exactly on the largest value a merge may produce; the halo
   * marks a merge target or a starred block.
   */
  lemma RenderDecorations(b: Block, highlight: bool)
    requires WellShaped(b)
    ensures var r := Render(b.value, b.width, highlight);
      && (r.rotateButton <==> RotateBlock(b) != b)
      && (r.stars <==> b.value == MaxValue)
      && r.style.glow == r.stars
      && (r.halo <==> highlight || r.stars)
  {
    var ws := ValidWidths(b.value);
    if |ws| > 1 {
      var k := IndexOf(ws, b.width);
      RotateFrom(b, k);
      ValidWidthsAscending(b.value);
      assert ws[CyclicNext(k, |ws|)] != ws[k];
    }
  }

  /**
   * The split hint appears exactly on the blocks a double click would split:
   * for a block of a list with distinct ids, the hint is shown if and only if
   * splitting it changes the list.
   */
  lemma SplitHint(bs: seq<Block>, b: Block, newId: Id, highlight: bool)
    requires UniqueIds(bs) && Find(bs, b.id) == Some(b) && b.value >= 1
    ensures Render(b.value, b.width, highlight).splitHint <==> Split(bs, b.id, newId) != bs
  {
    if b.value > 1 {
      SplitSpec(bs, b.id, newId);
    } else {
      SplitNoOp(bs, b.id, newId);
    }
  }

  /**
   * The rotate button, independently of the search: a value of at least 2
   * offers a rotation exactly when two different widths of the window
   * `[ceil(v/12), min(v,10)]` lay it out as exact rectangles 2 to 12 tall.
   */
  lemma {:induction false} CanTransformTwoShapes(v: int)
    requires v >= 2
    ensures CanTransform(v) <==>
      exists w1, w2 :: MinWidth(v) <= w1 < w2 <= UpperWidth(v) && Fits(v, w1) && Fits(v, w2)
  {
    var ws := ValidWidths(v);
    if CanTransform(v) {
      if HasExactShape(v) {
        ValidWidthsAscending(v);
        ValidWidthsExact(v, ws[0]);
        ValidWidthsExact(v, ws[1]);
        assert ws[0] in ws && ws[1] in ws;
        assert MinWidth(v) <= ws[0] < ws[1] <= UpperWidth(v) && Fits(v, ws[0]) && Fits(v, ws[1]);
      } else if v > MaxWidth {
        FallbackWidth(v);
      } else {
        SmallValuesStartNarrow(v);
      }
    } else {
      if exists w1, w2 :: MinWidth(v) <= w1 < w2 <= UpperWidth(v) && Fits(v, w1) && Fits(v, w2) {
        var w1, w2 :| MinWidth(v) <= w1 < w2 <= UpperWidth(v) && Fits(v, w1) && Fits(v, w2);
        ValidWidthsExact(v, w1);
        ValidWidthsExact(v, w2);
        assert false;
      }
    }
  }

  /** A value with exactly one shape offers no rotation: 1, and every value with no exact shape. */
  lemma NoRotationWithoutChoice(v: int)
    requires v == 1 || (v > MaxWidth && !HasExactShape(v))
    ensures !CanTransform(v)
  {
    if v != 1 {
      FallbackWidth(v);
    }
  }
}
