/** `count_non_zero_pixels`: the number of non-zero cells of a binary image
    inside a rectangular window, where the window is cut out with numpy
    slicing (`image[y:y+height, x:x+width]`) and so is clamped at the image
    edges. An image is a sequence of rows of pixel values. */
module Pixels {
  import opened PyValues

  /** `np.count_nonzero` on the cells row[lo..hi]. */
  function RowCount(row: seq<int>, lo: nat, hi: nat): (n: nat)
    requires lo <= hi <= |row|
    ensures n <= hi - lo
    decreases hi - lo
  {
    if hi == lo then 0 else RowCount(row, lo, hi - 1) + (if row[hi - 1] != 0 then 1 else 0)
  }

  /** `np.count_nonzero(row[x:x+width])`. */
  function RowSliceCount(row: seq<int>, x: int, width: int): nat
  {
    var cols := SliceRange(x, x + width, |row|);
    RowCount(row, cols.0, cols.1)
  }

  /** `np.count_nonzero` on rows a..b-1, each cut to `[x:x+width]`. */
  function BandCount(image: seq<seq<int>>, a: nat, b: nat, x: int, width: int): nat
    requires a <= b <= |image|
    decreases b - a
  {
    if b == a then 0
    else BandCount(image, a, b - 1, x, width) + RowSliceCount(image[b - 1], x, width)
  }

  /** `count_non_zero_pixels(image, x, y, width, height)`. A window whose
      row slice is empty (no height, with both row bounds on the same side
      of 0, or a top edge at or past the end of the image, `|image| <= y`) counts
      nothing. */
  function CountNonZeroPixels(image: seq<seq<int>>, x: int, y: int, width: int, height: int): (n: nat)
    ensures height <= 0 && (0 <= y + height || y < 0) ==> n == 0
    ensures 0 <= y && |image| <= y ==> n == 0
  {
    var rows := SliceRange(y, y + height, |image|);
    BandCount(image, rows.0, rows.1, x, width)
  }

  // ---------------------------------------------------------------------
  // Specification: the set of non-zero cells inside a window
  // ---------------------------------------------------------------------

  /** The (row, column) positions of the non-zero cells of `image` with row in
      [rowLo, rowHi) and column in [colLo, colHi); positions outside the image
      are not cells. */
  ghost function NonZeroCells(image: seq<seq<int>>, rowLo: int, rowHi: int, colLo: int, colHi: int): set<(int, int)>
  {
    set r: int, c: int | rowLo <= r < rowHi && 0 <= r < |image| && colLo <= c < colHi
                         && 0 <= c < |image[r]| && image[r][c] != 0 :: (r, c)
  }

  /** Whether `cell` is a non-zero cell of `image` inside the window. */
  predicate InWindow(image: seq<seq<int>>, rowLo: int, rowHi: int, colLo: int, colHi: int, cell: (int, int))
  {
    rowLo <= cell.0 < rowHi && 0 <= cell.0 < |image| && colLo <= cell.1 < colHi
    && 0 <= cell.1 < |image[cell.0]| && image[cell.0][cell.1] != 0
  }

  // The same cells, gathered one column and one row at a time; the proofs
  // count these and then show them equal to NonZeroCells.

  ghost function RowCells(image: seq<seq<int>>, r: int, lo: int, hi: int): set<(int, int)>
    decreases hi - lo
  {
    if hi <= lo then {}
    else RowCells(image, r, lo, hi - 1)
         + (if 0 <= r < |image| && 0 <= hi - 1 < |image[r]| && image[r][hi - 1] != 0 then {(r, hi - 1)} else {})
  }

  ghost function BandCells(image: seq<seq<int>>, a: int, b: int, lo: int, hi: int): set<(int, int)>
    decreases b - a
  {
    if b <= a then {} else BandCells(image, a, b - 1, lo, hi) + RowCells(image, b - 1, lo, hi)
  }

  lemma {:induction false} RowCellsMembers(image: seq<seq<int>>, r: int, lo: int, hi: int, cell: (int, int))
    ensures cell in RowCells(image, r, lo, hi) <==> cell.0 == r && InWindow(image, r, r + 1, lo, hi, cell)
    decreases hi - lo
  {
    if lo < hi {
      RowCellsMembers(image, r, lo, hi - 1, cell);
    }
  }

  lemma {:induction false} BandCellsMembers(image: seq<seq<int>>, a: int, b: int, lo: int, hi: int, cell: (int, int))
    ensures cell in BandCells(image, a, b, lo, hi) <==> InWindow(image, a, b, lo, hi, cell)
    decreases b - a
  {
    if a < b {
      BandCellsMembers(image, a, b - 1, lo, hi, cell);
      RowCellsMembers(image, b - 1, lo, hi, cell);
    }
  }

  /** The gathered cells are the window's cells. */
  lemma BandCellsAreNonZeroCells(image: seq<seq<int>>, a: int, b: int, lo: int, hi: int)
    ensures BandCells(image, a, b, lo, hi) == NonZeroCells(image, a, b, lo, hi)
  {
    forall cell: (int, int) | cell in NonZeroCells(image, a, b, lo, hi)
      ensures cell in BandCells(image, a, b, lo, hi)
    {
      BandCellsMembers(image, a, b, lo, hi, cell);
    }
    forall cell: (int, int) | cell in BandCells(image, a, b, lo, hi)
      ensures cell in NonZeroCells(image, a, b, lo, hi)
    {
      BandCellsMembers(image, a, b, lo, hi, cell);
    }
  }

  /** Counting a piece of a row counts its gathered cells. */
  lemma {:induction false} RowPieceCount(image: seq<seq<int>>, r: nat, lo: nat, hi: nat)
    requires r < |image|
    requires lo <= hi <= |image[r]|
    ensures RowCount(image[r], lo, hi) == |RowCells(image, r, lo, hi)|
    decreases hi - lo
  {
    if lo < hi {
      RowPieceCount(image, r, lo, hi - 1);
      RowCellsMembers(image, r, lo, hi - 1, (r, hi - 1));
    }
  }

  /** Columns past the end of the row hold no cells. */
  lemma {:induction false} RowCellsClamp(image: seq<seq<int>>, r: nat, lo: int, hi: int)
    requires r < |image|
    requires |image[r]| <= hi
    ensures RowCells(image, r, lo, hi) == RowCells(image, r, lo, |image[r]|)
    decreases hi
  {
    if |image[r]| < hi && lo < hi {
      RowCellsClamp(image, r, lo, hi - 1);
    }
  }

  /** The clamped column window of one row holds that row's cells of the
      unclamped window. */
  lemma RowWindowCount(image: seq<seq<int>>, r: nat, x: int, width: int)
    requires r < |image|
    requires 0 <= x && 0 <= width
    ensures RowSliceCount(image[r], x, width) == |RowCells(image, r, x, x + width)|
  {
    var n := |image[r]|;
    SliceNonNegative(x, x + width, n);
    if x + width <= n {
      RowPieceCount(image, r, x, x + width);
    } else {
      RowCellsClamp(image, r, x, x + width);
      if x <= n {
        RowPieceCount(image, r, x, n);
      }
    }
  }

  /** The rows before b-1 and row b-1 share no cell. */
  lemma LastRowDisjoint(image: seq<seq<int>>, a: int, b: int, lo: int, hi: int)
    requires a < b
    ensures |BandCells(image, a, b, lo, hi)| == |BandCells(image, a, b - 1, lo, hi)| + |RowCells(image, b - 1, lo, hi)|
  {
    var upper, lower := BandCells(image, a, b - 1, lo, hi), RowCells(image, b - 1, lo, hi);
    forall cell | cell in upper ensures cell !in lower {
      BandCellsMembers(image, a, b - 1, lo, hi, cell);
      RowCellsMembers(image, b - 1, lo, hi, cell);
    }
    assert upper * lower == {};
  }

  /** A band of rows counts its rows before the last one, plus the last. */
  lemma BandCountLastRow(image: seq<seq<int>>, a: nat, b: nat, x: int, width: int)
    requires a < b <= |image|
    ensures BandCount(image, a, b, x, width)
            == BandCount(image, a, b - 1, x, width) + RowSliceCount(image[b - 1], x, width)
  {
  }

  /** Summing rows a..b-1 counts the gathered cells of that band. */
  lemma {:induction false} BandCountCells(image: seq<seq<int>>, a: nat, b: nat, x: int, width: int)
    requires a <= b <= |image|
    requires 0 <= x && 0 <= width
    ensures BandCount(image, a, b, x, width) == |BandCells(image, a, b, x, x + width)|
    decreases b - a
  {
    if a < b {
      BandCountCells(image, a, b - 1, x, width);
      AddLastRow(image, a, b, x, width);
    }
  }

  /** One more row adds its own cells to the count. */
  lemma AddLastRow(image: seq<seq<int>>, a: nat, b: nat, x: int, width: int)
    requires a < b <= |image|
    requires 0 <= x && 0 <= width
    requires BandCount(image, a, b - 1, x, width) == |BandCells(image, a, b - 1, x, x + width)|
    ensures BandCount(image, a, b, x, width) == |BandCells(image, a, b, x, x + width)|
  {
    calc {
      BandCount(image, a, b, x, width);
      { BandCountLastRow(image, a, b, x, width); }
      BandCount(image, a, b - 1, x, width) + RowSliceCount(image[b - 1], x, width);
      { RowWindowCount(image, b - 1, x, width); }
      |BandCells(image, a, b - 1, x, x + width)| + |RowCells(image, b - 1, x, x + width)|;
      { LastRowDisjoint(image, a, b, x, x + width); }
      |BandCells(image, a, b, x, x + width)|;
    }
  }

  /** For the non-negative arguments `grade_transcript` uses, `count_non_zero_pixels`
      is the number of non-zero cells with row in [y, min(y+height, H)) and
      column in [x, min(x+width, W)). */
  lemma CountIsCellCount(image: seq<seq<int>>, x: int, y: int, width: int, height: int)
    requires 0 <= x && 0 <= y && 0 <= width && 0 <= height
    ensures CountNonZeroPixels(image, x, y, width, height) == |NonZeroCells(image, y, y + height, x, x + width)|
  {
    var h := |image|;
    var a, b := Min(y, h), Min(y + height, h);
    SliceNonNegative(y, y + height, h);
    BandCountCells(image, a, b, x, width);
    BandCellsAreNonZeroCells(image, a, b, x, x + width);
    assert NonZeroCells(image, a, b, x, x + width) == NonZeroCells(image, y, y + height, x, x + width);
  }

  /** A band of rows, each cut to a window of `width` columns, holds at most
      (number of rows) * width non-zero cells. */
  lemma {:induction false} BandCountBounded(image: seq<seq<int>>, a: nat, b: nat, x: int, width: nat)
    requires a <= b <= |image|
    ensures BandCount(image, a, b, x, width) <= (b - a) * width
    decreases b - a
  {
    if a < b {
      BandCountBounded(image, a, b - 1, x, width);
      SliceShorterThanSpan(x, width, |image[b - 1]|);
      AddRowBound(BandCount(image, a, b - 1, x, width), RowSliceCount(image[b - 1], x, width), b - 1 - a, width);
    }
  }

  lemma AddRowBound(rest: nat, last: nat, k: nat, width: nat)
    requires rest <= k * width && last <= width
    ensures rest + last <= (k + 1) * width
  {
  }

  lemma MulMonotone(a: nat, b: nat, c: nat)
    requires a <= b
    ensures a * c <= b * c
  {
  }

  /** Whatever the position, the count never exceeds the window's area. */
  lemma CountBounded(image: seq<seq<int>>, x: int, y: int, width: nat, height: nat)
    ensures CountNonZeroPixels(image, x, y, width, height) <= width * height
  {
    var rows := SliceRange(y, y + height, |image|);
    BandCountBounded(image, rows.0, rows.1, x, width);
    SliceShorterThanSpan(y, height, |image|);
    MulMonotone(rows.1 - rows.0, height, width);
  }

  /** A window that lies past the bottom edge, or past the right edge of
      every row, or has no height or width, counts nothing. */
  lemma CountEmptyWindow(image: seq<seq<int>>, x: int, y: int, width: int, height: int)
    requires 0 <= x && 0 <= y && 0 <= width && 0 <= height
    requires y >= |image| || height == 0 || width == 0
             || (forall r :: 0 <= r < |image| ==> x >= |image[r]|)
    ensures CountNonZeroPixels(image, x, y, width, height) == 0
  {
    CountIsCellCount(image, x, y, width, height);
    assert NonZeroCells(image, y, y + height, x, x + width) == {};
  }
}
