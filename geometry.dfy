/**
 * The shape resolver: which grid widths a block of a given value may take
 * (src/utils/geometry.js).
 */
module Geometry {

  /** MAX_HEIGHT: the tallest a block may be, in cells. */
  const MaxHeight: int := 12
  /** MAX_WIDTH: the widest a block may be, in cells. */
  const MaxWidth: int := 10

  /** `Math.ceil(a / b)` for a positive divisor `b`. */
  function CeilDiv(a: int, b: int): (r: int)
    requires b > 0
    ensures (r - 1) * b < a <= r * b
  {
    var q := (a + b - 1) / b;
    assert a + b - 1 == q * b + (a + b - 1) % b;
    q
  }

  /** `minWidthRequiredByHeight`: the narrowest width that keeps the height within MaxHeight. */
  function MinWidth(v: int): int {
    CeilDiv(v, MaxHeight)
  }

  /** `Math.min(value, MAX_WIDTH)`: the upper end of the width search. */
  function UpperWidth(v: int): int {
    if v < MaxWidth then v else MaxWidth
  }

  /**
   * Width `w` lays `v` cells out as an exact rectangle between 2 and MaxHeight
   * cells tall. Width 0 never fits: in JavaScript `v % 0` is NaN.
   */
  predicate Fits(v: int, w: int) {
    w != 0 && v % w == 0 && 2 <= v / w <= MaxHeight
  }

  /** The widths in `[lo, hi]` that fit `v`, in the order the search loop finds them. */
  function Window(v: int, lo: int, hi: int): seq<int>
    decreases hi - lo
  {
    if hi < lo then []
    else Window(v, lo, hi - 1) + (if Fits(v, hi) then [hi] else [])
  }

  /** Every width the search finds lies in `[lo, hi]` and fits. */
  lemma {:induction false} WindowSound(v: int, lo: int, hi: int)
    ensures forall k :: 0 <= k < |Window(v, lo, hi)| ==>
      lo <= Window(v, lo, hi)[k] <= hi && Fits(v, Window(v, lo, hi)[k])
    decreases hi - lo
  {
    if lo <= hi {
      WindowSound(v, lo, hi - 1);
      var r, p := Window(v, lo, hi), Window(v, lo, hi - 1);
      assert r == p + (if Fits(v, hi) then [hi] else []);
      forall k | 0 <= k < |r|
        ensures lo <= r[k] <= hi && Fits(v, r[k])
      {
        if k < |p| {
          assert r[k] == p[k];
        }
      }
    }
  }

  /** The search finds the widths in strictly ascending order, so without duplicates. */
  lemma {:induction false} WindowAscending(v: int, lo: int, hi: int)
    ensures StrictlyAscending(Window(v, lo, hi))
    decreases hi - lo
  {
    if lo <= hi {
      WindowAscending(v, lo, hi - 1);
      WindowSound(v, lo, hi - 1);
      var r, p := Window(v, lo, hi), Window(v, lo, hi - 1);
      assert r == p + (if Fits(v, hi) then [hi] else []);
      forall j, k | 0 <= j < k < |r|
        ensures r[j] < r[k]
      {
        assert r[j] == p[j];
        if k < |p| {
          assert r[k] == p[k];
        }
      }
    }
  }

  /** Each entry is smaller than every later one. */
  predicate StrictlyAscending(s: seq<int>) {
    forall j, k :: 0 <= j < k < |s| ==> s[j] < s[k]
  }

  /** Some width in the search window lays `v` out as an exact rectangle. */
  predicate HasExactShape(v: int) {
    exists w :: MinWidth(v) <= w <= UpperWidth(v) && Fits(v, w)
  }

  /**
   * `getValidWidths(value)`: the ascending list of widths a block of value `v`
   * may take. The first entry is the shape a new block gets; rotation cycles
   * through the list.
   */
  function ValidWidths(v: int): (r: seq<int>)
    ensures r != []
    ensures forall k :: 0 <= k < |r| ==> r[k] >= 1
  {
    if v == 1 then [1]
    else
      var ws := Window(v, MinWidth(v), UpperWidth(v));
      WindowSound(v, MinWidth(v), UpperWidth(v));
      assert forall k :: 0 <= k < |ws| ==> ws[k] >= 1 by {
        forall k | 0 <= k < |ws| ensures ws[k] >= 1 {
          assert Fits(v, ws[k]);
        }
      }
      if |ws| > 0 then ws
      else if v <= MaxWidth then [1]
      // `minWidthRequiredByHeight || 2`: a zero minimum would fall back to 2
      else [if MinWidth(v) == 0 then 2 else MinWidth(v)]
  }

  /** The search loop of `getValidWidths`, proved to compute `ValidWidths`. */
  method GetValidWidths(v: int) returns (widths: seq<int>)
    ensures widths == ValidWidths(v)
  {
    if v == 1 {
      return [1];
    }
    widths := [];
    var lo := CeilDiv(v, MaxHeight);
    var hi := if v < MaxWidth then v else MaxWidth;
    var i := lo;
    while i <= hi
      invariant i == lo || lo < i <= hi + 1
      invariant widths == Window(v, lo, i - 1)
      decreases hi - i
    {
      if i != 0 && v % i == 0 {
        var h := v / i;
        if h <= MaxHeight && h >= 2 {
          widths := widths + [i];
        }
      }
      i := i + 1;
    }
    if |widths| == 0 {
      if v <= MaxWidth {
        return [1];
      }
      return [if lo == 0 then 2 else lo];
    }
  }

  /** The shapes of a value are listed in strictly ascending order. */
  lemma ValidWidthsAscending(v: int)
    ensures StrictlyAscending(ValidWidths(v))
  {
    WindowAscending(v, MinWidth(v), UpperWidth(v));
  }

  /** Every fitting width of the interval is found by the search. */
  lemma {:induction false} WindowComplete(v: int, lo: int, hi: int, w: int)
    requires lo <= w <= hi && Fits(v, w)
    ensures w in Window(v, lo, hi)
    decreases hi - lo
  {
    if w < hi {
      WindowComplete(v, lo, hi - 1, w);
    }
  }

  /**
   * When some width fits exactly, the result is exactly the fitting widths of
   * the window `[ceil(v/12), min(v,10)]`: each one divides `v` into a height
   * between 2 and 12, and none is missing.
   */
  lemma ValidWidthsExact(v: int, w: int)
    requires v != 1 && HasExactShape(v)
    ensures w in ValidWidths(v) <==> MinWidth(v) <= w <= UpperWidth(v) && Fits(v, w)
  {
    var u :| MinWidth(v) <= u <= UpperWidth(v) && Fits(v, u);
    WindowComplete(v, MinWidth(v), UpperWidth(v), u);
    WindowSound(v, MinWidth(v), UpperWidth(v));
    if MinWidth(v) <= w <= UpperWidth(v) && Fits(v, w) {
      WindowComplete(v, MinWidth(v), UpperWidth(v), w);
    }
  }

  /**
   * Values 2 to 10 always have an exact shape, so the `[1]` fallback is never
   * reached for them, and the single column is their first shape.
   */
  lemma SmallValuesStartNarrow(v: int)
    requires 1 <= v <= MaxWidth
    ensures v != 1 ==> HasExactShape(v)
    ensures ValidWidths(v)[0] == 1
  {
    if v != 1 {
      assert MinWidth(v) == 1 && Fits(v, 1);
      WindowComplete(v, MinWidth(v), UpperWidth(v), 1);
      assert HasExactShape(v);
      ValidWidthsExact(v, 1);
      ValidWidthsAscending(v);
    }
  }

  /** No fitting width in `[lo, hi]` means the search finds nothing. */
  lemma {:induction false} WindowEmpty(v: int, lo: int, hi: int)
    requires forall w :: lo <= w <= hi ==> !Fits(v, w)
    ensures Window(v, lo, hi) == []
    decreases hi - lo
  {
    if lo <= hi {
      WindowEmpty(v, lo, hi - 1);
    }
  }

  /**
   * With no exact shape, a value above 10 gets the single width
   * `ceil(v/12)`.
   */
  lemma FallbackWidth(v: int)
    requires v > MaxWidth && !HasExactShape(v)
    ensures ValidWidths(v) == [MinWidth(v)]
  {
    WindowEmpty(v, MinWidth(v), UpperWidth(v));
  }

  /** Multiplying by a positive factor keeps the order. */
  lemma MulMonotone(a: int, b: int, w: int)
    requires w > 0
    ensures a >= b ==> a * w >= b * w
  {
    if a >= b {
      assert a * w - b * w == (a - b) * w;
    }
  }

  /** Division by a positive `m` is determined by any decomposition `q * m + r` with `0 <= r < m`. */
  lemma DivModUnique(a: int, m: int, q: int, r: int)
    requires m > 0 && 0 <= r < m && a == q * m + r
    ensures a / m == q && a % m == r
  {
    var q', r' := a / m, a % m;
    assert a == q' * m + r';
    assert (q - q') * m == r' - r;
    assert (q' - q) * m == r - r';
    MulMonotone(q - q', 1, m);
    MulMonotone(q' - q, 1, m);
  }

  /** `CeilDiv(a, b)` is the only `r` with `(r - 1) * b < a <= r * b`. */
  lemma CeilDivUnique(a: int, b: int, r: int)
    requires b > 0 && (r - 1) * b < a <= r * b
    ensures CeilDiv(a, b) == r
  {
    var c := CeilDiv(a, b);
    MulMonotone(c - 1, r, b);
    MulMonotone(r - 1, c, b);
  }

  /** For 11 to 120, if `ceil(v/12)` divided `v` it would be an exact shape. */
  lemma MinWidthDividing(v: int)
    requires MaxWidth < v <= 120
    ensures v % MinWidth(v) == 0 ==> HasExactShape(v)
  {
    var w := MinWidth(v);
    MulMonotone(w, 11, 12);
    MulMonotone(10, w - 1, 12);
    if v % w == 0 {
      var h := v / w;
      assert v == h * w;
      MulMonotone(h, 13, w);
      MulMonotone(1, h, w);
      assert Fits(v, w);
    }
  }

  /**
   * The fallback shape is padded: for values 11 to 120 with no exact shape,
   * `ceil(v/12)` does not divide `v`, so the last row is incomplete, yet the
   * padded height never exceeds 12 rows.
   */
  lemma FallbackIsPadded(v: int)
    requires MaxWidth < v <= 120 && !HasExactShape(v)
    ensures var w := MinWidth(v);
      v % w != 0 && v < w * CeilDiv(v, w) && CeilDiv(v, w) <= MaxHeight
  {
    var w := MinWidth(v);
    MinWidthDividing(v);
    PaddedHeight(v);
    var c := CeilDiv(v, w);
    DivModUnique(w * c, w, c, 0);
  }

  /** The height of any shape of width `ceil(v/12)` is at most 12 rows. */
  lemma PaddedHeight(v: int)
    requires v >= 1
    ensures MinWidth(v) >= 1 && CeilDiv(v, MinWidth(v)) <= MaxHeight
  {
    var w := MinWidth(v);
    var r := CeilDiv(v, w);
    MulMonotone(r - 1, MaxHeight, w);
  }

  /** An exact shape has exactly `v / w` rows, between 2 and 12. */
  lemma ExactHeight(v: int, w: int)
    requires w > 0 && Fits(v, w)
    ensures CeilDiv(v, w) == v / w
  {
    var h := v / w;
    assert v == h * w;
    assert (h - 1) * w == h * w - w;
    CeilDivUnique(v, w, h);
  }

  /**
   * Every shape a value up to 120 may take fits the 10-wide, 12-tall box:
   * at most 10 columns and at most 12 rows.
   */
  lemma ShapesFitBox(v: int, w: int)
    requires 1 <= v <= 120 && w in ValidWidths(v)
    ensures 1 <= w <= MaxWidth && CeilDiv(v, w) <= MaxHeight
  {
    if v == 1 {
    } else if v <= MaxWidth {
      WindowSound(v, MinWidth(v), UpperWidth(v));
      if w in Window(v, MinWidth(v), UpperWidth(v)) {
        ExactHeight(v, w);
      }
    } else if HasExactShape(v) {
      ValidWidthsExact(v, w);
      ExactHeight(v, w);
    } else {
      FallbackWidth(v);
      PaddedHeight(v);
    }
  }

  /** The prime 13 has no exact shape and is laid out 2 wide with a padded seventh row. */
  lemma ThirteenIsPadded()
    ensures ValidWidths(13) == [2] && CeilDiv(13, 2) == 7
  {
    forall w | MinWidth(13) <= w <= UpperWidth(13)
      ensures !Fits(13, w)
    {
      assert 2 <= w <= 10;
    }
    FallbackWidth(13);
  }
}
