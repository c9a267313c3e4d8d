/** Geometry of an image plane stored in a flat byte buffer: a plane pointer
    `p`, its line size and a width x height window, as the routines of
    msvideo.c walk them.  Index `k` of the buffer lies in the window when
    `(k - p) / linesize` is a row below the height and `(k - p) % linesize` a
    column below the width. */
module Planes {

  /** `rows` lines of `cols` bytes; line `i` starts at `off + i * stride`. */
  datatype Rect = Rect(off: int, stride: int, rows: int, cols: int)
  {
    /** Sizes are not negative and consecutive lines do not overlap. */
    predicate Valid() { off >= 0 && rows >= 0 && 0 <= cols <= stride }

    /** The window lies inside a buffer of `len` bytes. */
    predicate FitsIn(len: int)
    {
      Valid() && off <= len && (rows == 0 || cols == 0 || off + (rows - 1) * stride + cols <= len)
    }

    /** Buffer index of byte `j` of line `i`. */
    function At(i: int, j: int): int { off + i * stride + j }

    function Row(k: int): int requires stride > 0 { (k - off) / stride }

    function Col(k: int): int requires stride > 0 { (k - off) % stride }

    predicate Contains(k: int)
    {
      stride > 0 && off <= k && Row(k) < rows && Col(k) < cols
    }
  }

  lemma MulMonotone(a: int, b: int, c: int)
    requires 0 <= a <= b && 0 <= c
    ensures a * c <= b * c
  {
    var d := b - a;
    assert b * c == a * c + d * c;
  }

  /** Division by a positive stride recovers line and column. */
  lemma DivModUnique(x: int, s: int, i: int, j: int)
    requires s > 0 && 0 <= j < s && x == i * s + j
    ensures x / s == i && x % s == j
  {
    var q, m := x / s, x % s;
    assert x == q * s + m;
    assert (q - i) * s == j - m;
    if q > i {
      MulMonotone(1, q - i, s);
    } else if q < i {
      MulMonotone(1, i - q, s);
    }
  }

  /** Byte `j` of line `i` is in the window, at line `i` and column `j`. */
  lemma CellOf(r: Rect, i: int, j: int)
    requires r.Valid() && 0 <= i < r.rows && 0 <= j < r.cols
    ensures r.stride > 0 && r.Contains(r.At(i, j))
    ensures r.Row(r.At(i, j)) == i && r.Col(r.At(i, j)) == j
  {
    DivModUnique(i * r.stride + j, r.stride, i, j);
    MulMonotone(0, i, r.stride);
  }

  /** Every index of the window is a (line, column) cell. */
  lemma CellAt(r: Rect, k: int)
    requires r.Contains(k)
    ensures 0 <= r.Row(k) < r.rows && 0 <= r.Col(k) < r.cols
    ensures k == r.At(r.Row(k), r.Col(k))
  {
    assert k - r.off == r.Row(k) * r.stride + r.Col(k);
  }

  /** The next line starts one stride further on. */
  lemma NextLine(r: Rect, i: int)
    ensures r.At(i + 1, 0) == r.At(i, 0) + r.stride
  {
  }

  lemma CellInBounds(r: Rect, i: int, j: int, len: int)
    requires r.FitsIn(len) && 0 <= i < r.rows && 0 <= j < r.cols
    ensures 0 <= r.At(i, j) < len
  {
    MulMonotone(i, r.rows - 1, r.stride);
    MulMonotone(0, i, r.stride);
  }

  /** Line `i` of a window that fits is a span inside the buffer. */
  lemma LineInBounds(r: Rect, i: int, len: int)
    requires r.FitsIn(len) && 0 <= i < r.rows
    ensures r.cols > 0 ==> 0 <= r.At(i, 0) && r.At(i, 0) + r.cols <= len
  {
    if r.cols > 0 {
      CellInBounds(r, i, 0, len);
      CellInBounds(r, i, r.cols - 1, len);
    }
  }

  lemma ContainsInBounds(r: Rect, k: int, len: int)
    requires r.FitsIn(len) && r.Contains(k)
    ensures 0 <= k < len
  {
    CellAt(r, k);
    CellInBounds(r, r.Row(k), r.Col(k), len);
  }

  /** A window whose lines are packed (`stride == cols`) is one contiguous
      span of `rows * cols` bytes. */
  lemma PackedSpan(r: Rect, k: int)
    requires r.Valid() && r.stride == r.cols > 0
    ensures r.Contains(k) <==> r.off <= k < r.off + r.rows * r.cols
    ensures r.Contains(k) ==> r.At(r.Row(k), r.Col(k)) == k
  {
    if r.off <= k {
      var x := k - r.off;
      assert x == r.Row(k) * r.cols + r.Col(k);
      if r.Row(k) < r.rows {
        MulMonotone(r.Row(k) + 1, r.rows, r.cols);
      } else {
        MulMonotone(r.rows, r.Row(k), r.cols);
      }
    }
  }

  /** Line `i` of the window is the span of `cols` bytes starting at `At(i, 0)`. */
  lemma LineSpan(r: Rect, i: int, k: int)
    requires r.Valid() && r.stride > 0 && 0 <= i < r.rows
    ensures (r.Contains(k) && r.Row(k) == i) <==> r.At(i, 0) <= k < r.At(i, 0) + r.cols
    ensures r.At(i, 0) <= k < r.At(i, 0) + r.cols ==> r.Col(k) == k - r.At(i, 0)
  {
    if r.At(i, 0) <= k < r.At(i, 0) + r.cols {
      CellOf(r, i, k - r.At(i, 0));
    }
    if r.Contains(k) && r.Row(k) == i {
      CellAt(r, k);
    }
  }
}
