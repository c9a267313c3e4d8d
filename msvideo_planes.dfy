/** The in-place byte-plane algorithms of msvideo.c: strided region copy,
    horizontal, vertical and central mirroring, and the two RGB24 routines.
    A plane is a window (Planes.Rect) of a flat byte array; each method is
    proved against a function of the array's old contents. */
module MsVideoPlanes {
  import opened CArith
  import opened Planes

  /** `d` with the `n` bytes from index `p` replaced by the `n` bytes of
      `s` from index `q`. */
  ghost function Spliced(d: seq<uint8>, p: int, s: seq<uint8>, q: int, n: int): (t: seq<uint8>)
    requires 0 <= n && (n > 0 ==> 0 <= p && p + n <= |d| && 0 <= q && q + n <= |s|)
    ensures |t| == |d|
  {
    seq(|d|, k requires 0 <= k < |d| => if p <= k < p + n then s[k - p + q] else d[k])
  }

  /** `memcpy(dst + d, src + s, n)`: the two ranges may share an array only
      when they do not overlap. */
  method CopyBytes(dst: array<uint8>, d: int, src: array<uint8>, s: int, n: int)
    requires 0 <= n
    requires n > 0 ==> 0 <= d && d + n <= dst.Length && 0 <= s && s + n <= src.Length
    requires src == dst && n > 0 ==> s + n <= d || d + n <= s
    modifies dst
    ensures dst[..] == Spliced(old(dst[..]), d, old(src[..]), s, n)
  {
    ghost var d0, s0 := dst[..], src[..];
    var t := 0;
    while t < n
      invariant 0 <= t <= n
      invariant forall k :: 0 <= k < dst.Length ==>
                  dst[k] == if d <= k < d + t then s0[k - d + s] else d0[k]
      invariant forall k :: s <= k < s + n ==> src[k] == s0[k]
    {
      dst[d + t] := src[s + t];
      t := t + 1;
    }
    assert dst[..] == Spliced(d0, d, s0, s, n);
  }

  // ---------------------------------------------------------------- copy

  /** `dst` after the `dr` window received the `sr` window of `src`, cell by
      cell; every byte outside `dr` keeps its value. */
  ghost function Copied(d: seq<uint8>, src: seq<uint8>, dr: Rect, sr: Rect): (t: seq<uint8>)
    requires dr.FitsIn(|d|) && sr.FitsIn(|src|) && dr.rows == sr.rows && dr.cols == sr.cols
    ensures |t| == |d|
  {
    seq(|d|, k requires 0 <= k < |d| =>
      if dr.Contains(k) then
        CellAt(dr, k);
        CellInBounds(sr, dr.Row(k), dr.Col(k), |src|);
        src[sr.At(dr.Row(k), dr.Col(k))]
      else d[k])
  }

  lemma CopiedCell(d: seq<uint8>, src: seq<uint8>, dr: Rect, sr: Rect, i: int, j: int)
    requires dr.FitsIn(|d|) && sr.FitsIn(|src|) && dr.rows == sr.rows && dr.cols == sr.cols
    requires 0 <= i < dr.rows && 0 <= j < dr.cols
    ensures 0 <= dr.At(i, j) < |d| && 0 <= sr.At(i, j) < |src|
    ensures Copied(d, src, dr, sr)[dr.At(i, j)] == src[sr.At(i, j)]
  {
    CellOf(dr, i, j);
    CellInBounds(dr, i, j, |d|);
    CellInBounds(sr, i, j, |src|);
  }

  /** A packed copy (both strides equal to the width) moves one contiguous
      span of `rows * cols` bytes. */
  lemma PackedCopy(d: seq<uint8>, d': seq<uint8>, src: seq<uint8>, dr: Rect, sr: Rect)
    requires dr.FitsIn(|d|) && sr.FitsIn(|src|) && dr.rows == sr.rows && dr.cols == sr.cols
    requires dr.stride == sr.stride == dr.cols > 0
    requires dr.rows > 0 ==> dr.off + dr.cols * dr.rows <= |d| && sr.off + dr.cols * dr.rows <= |src|
    requires d' == Spliced(d, dr.off, src, sr.off, dr.cols * dr.rows)
    ensures d' == Copied(d, src, dr, sr)
  {
    forall k | 0 <= k < |d|
      ensures d'[k] == Copied(d, src, dr, sr)[k]
    {
      PackedCopyAt(d, src, dr, sr, k);
    }
  }

  lemma PackedCopyAt(d: seq<uint8>, src: seq<uint8>, dr: Rect, sr: Rect, k: int)
    requires dr.FitsIn(|d|) && sr.FitsIn(|src|) && dr.rows == sr.rows && dr.cols == sr.cols
    requires dr.stride == sr.stride == dr.cols > 0
    requires dr.rows > 0 ==> dr.off + dr.cols * dr.rows <= |d| && sr.off + dr.cols * dr.rows <= |src|
    requires 0 <= k < |d|
    ensures Spliced(d, dr.off, src, sr.off, dr.cols * dr.rows)[k] == Copied(d, src, dr, sr)[k]
  {
    PackedSpan(dr, k);
    assert dr.rows * dr.cols == dr.cols * dr.rows;
    if dr.Contains(k) {
      assert sr.At(dr.Row(k), dr.Col(k)) == k - dr.off + sr.off;
    }
  }

  /** `d` holds the first `i` lines of the copy and the old bytes elsewhere. */
  ghost predicate CopiedUpTo(d0: seq<uint8>, d: seq<uint8>, src: seq<uint8>, dr: Rect, sr: Rect, i: int)
    requires dr.FitsIn(|d0|) && sr.FitsIn(|src|) && dr.rows == sr.rows && dr.cols == sr.cols
  {
    |d| == |d0| &&
    forall k :: 0 <= k < |d| ==>
      d[k] == if dr.Contains(k) && dr.Row(k) < i then Copied(d0, src, dr, sr)[k] else d0[k]
  }

  /** Copying line `i` extends a copy of the lines above it. */
  lemma CopiedLine(d0: seq<uint8>, d: seq<uint8>, d': seq<uint8>, src: seq<uint8>, dr: Rect, sr: Rect, i: int)
    requires dr.FitsIn(|d0|) && sr.FitsIn(|src|) && dr.rows == sr.rows && dr.cols == sr.cols
    requires 0 <= i < dr.rows && CopiedUpTo(d0, d, src, dr, sr, i)
    requires dr.cols > 0 ==> 0 <= dr.At(i, 0) && dr.At(i, 0) + dr.cols <= |d|
                             && 0 <= sr.At(i, 0) && sr.At(i, 0) + dr.cols <= |src|
    requires d' == Spliced(d, dr.At(i, 0), src, sr.At(i, 0), dr.cols)
    ensures CopiedUpTo(d0, d', src, dr, sr, i + 1)
  {
    forall k | 0 <= k < |d'|
      ensures d'[k] == if dr.Contains(k) && dr.Row(k) < i + 1 then Copied(d0, src, dr, sr)[k] else d0[k]
    {
      if dr.stride > 0 {
        LineSpan(dr, i, k);
      }
    }
  }

  /** Once every line is copied, the destination is the copy. */
  lemma CopiedAll(d0: seq<uint8>, d: seq<uint8>, src: seq<uint8>, dr: Rect, sr: Rect)
    requires dr.FitsIn(|d0|) && sr.FitsIn(|src|) && dr.rows == sr.rows && dr.cols == sr.cols
    requires CopiedUpTo(d0, d, src, dr, sr, dr.rows)
    ensures d == Copied(d0, src, dr, sr)
  {
    forall k | 0 <= k < |d|
      ensures d[k] == Copied(d0, src, dr, sr)[k]
    {
      if dr.Contains(k) {
        CellAt(dr, k);
      }
    }
  }

  /** One iteration of the line loop of `plane_copy`: line `i` of the
      source window is copied to line `i` of the destination window. */
  method CopyLine(src: array<uint8>, sr: Rect, dst: array<uint8>, dr: Rect, i: int, sp: int, dp: int,
                  ghost d0: seq<uint8>)
    requires src != dst && sr.FitsIn(src.Length) && dr.FitsIn(dst.Length)
    requires dr.rows == sr.rows && dr.cols == sr.cols && |d0| == dst.Length
    requires 0 <= i < dr.rows && sp == sr.At(i, 0) && dp == dr.At(i, 0)
    requires CopiedUpTo(d0, dst[..], src[..], dr, sr, i)
    modifies dst
    ensures CopiedUpTo(d0, dst[..], src[..], dr, sr, i + 1)
  {
    ghost var before, s0 := dst[..], src[..];
    LineInBounds(dr, i, dst.Length);
    LineInBounds(sr, i, src.Length);
    CopyBytes(dst, dp, src, sp, dr.cols);
    assert src[..] == s0;
    CopiedLine(d0, before, dst[..], s0, dr, sr, i);
  }

  /** The line-by-line loop of `plane_copy`. */
  method CopyLines(src: array<uint8>, sr: Rect, dst: array<uint8>, dr: Rect)
    requires src != dst && sr.FitsIn(src.Length) && dr.FitsIn(dst.Length)
    requires dr.rows == sr.rows && dr.cols == sr.cols
    modifies dst
    ensures dst[..] == Copied(old(dst[..]), src[..], dr, sr)
  {
    ghost var d0 := dst[..];
    var sp, dp := sr.off, dr.off;
    var i := 0;
    while i < dr.rows
      invariant 0 <= i <= dr.rows && sp == sr.At(i, 0) && dp == dr.At(i, 0)
      invariant CopiedUpTo(d0, dst[..], src[..], dr, sr, i)
    {
      CopyLine(src, sr, dst, dr, i, sp, dp, d0);
      NextLine(sr, i);
      NextLine(dr, i);
      sp, dp := sp + sr.stride, dp + dr.stride;
      i := i + 1;
    }
    CopiedAll(d0, dst[..], src[..], dr, sr);
  }

  /** `plane_copy`: copy `roi` (width x height) from one plane to another,
      one line at a time, or with a single memcpy when both planes are
      packed to the region's width. */
  method PlaneCopy(src: array<uint8>, srcPlane: int, srcStride: int,
                   dst: array<uint8>, dstPlane: int, dstStride: int,
                   width: int, height: int)
    requires src != dst
    requires Rect(srcPlane, srcStride, height, width).FitsIn(src.Length)
    requires Rect(dstPlane, dstStride, height, width).FitsIn(dst.Length)
    modifies dst
    ensures dst[..] == Copied(old(dst[..]), src[..], Rect(dstPlane, dstStride, height, width),
                              Rect(srcPlane, srcStride, height, width))
  {
    var dr, sr := Rect(dstPlane, dstStride, height, width), Rect(srcPlane, srcStride, height, width);
    if width == srcStride && width == dstStride {
      if width > 0 && height > 0 {
        assert dstPlane + (height - 1) * width + width == dstPlane + width * height;
        assert srcPlane + (height - 1) * width + width == srcPlane + width * height;
      } else {
        assert width * height == 0;
      }
      CopyBytes(dst, dstPlane, src, srcPlane, width * height);
      if width > 0 {
        PackedCopy(old(dst[..]), dst[..], src[..], dr, sr);
      } else {
        assert dst[..] == Copied(old(dst[..]), src[..], dr, sr);
      }
    } else {
      CopyLines(src, sr, dst, dr);
    }
  }

  // ------------------------------------------------------------- mirrors

  /** `MSMirrorType`. */
  datatype MirrorType = NoMirror | HorizontalMirror | CentralMirror | VerticalMirror

  /** The cell whose old byte lands on cell (i, j) of a `rows` x `cols` window. */
  function Partner(m: MirrorType, rows: int, cols: int, i: int, j: int): (int, int)
  {
    match m
    case NoMirror => (i, j)
    case HorizontalMirror => (i, cols - 1 - j)
    case VerticalMirror => (rows - 1 - i, j)
    case CentralMirror => (rows - 1 - i, cols - 1 - j)
  }

  /** Buffer index of the partner of window index `k`. */
  function Source(r: Rect, m: MirrorType, k: int): int
    requires r.Contains(k)
  {
    var c := Partner(m, r.rows, r.cols, r.Row(k), r.Col(k));
    r.At(c.0, c.1)
  }

  lemma SourceInWindow(r: Rect, m: MirrorType, k: int)
    requires r.Valid() && r.Contains(k)
    ensures r.Contains(Source(r, m, k))
    ensures Partner(m, r.rows, r.cols, r.Row(k), r.Col(k))
            == (r.Row(Source(r, m, k)), r.Col(Source(r, m, k)))
  {
    CellAt(r, k);
    var c := Partner(m, r.rows, r.cols, r.Row(k), r.Col(k));
    CellOf(r, c.0, c.1);
  }

  /** The partner of the partner is the byte itself. */
  lemma SourceTwice(r: Rect, m: MirrorType, k: int)
    requires r.Valid() && r.Contains(k)
    ensures r.Contains(Source(r, m, k)) && Source(r, m, Source(r, m, k)) == k
  {
    var s := Source(r, m, k);
    SourceInWindow(r, m, k);
    SourceInWindow(r, m, s);
    CellAt(r, k);
    CellAt(r, s);
  }

  /** The plane after mirror `m`: each window byte takes the old value of its
      partner; bytes outside the window keep theirs. */
  ghost function Mirrored(a: seq<uint8>, r: Rect, m: MirrorType): (t: seq<uint8>)
    requires r.FitsIn(|a|)
    ensures |t| == |a|
  {
    seq(|a|, k requires 0 <= k < |a| =>
      if r.Contains(k) then
        SourceInWindow(r, m, k);
        ContainsInBounds(r, Source(r, m, k), |a|);
        a[Source(r, m, k)]
      else a[k])
  }

  /** Cell (i, j) of the mirrored plane holds the old cell `Partner(i, j)`. */
  lemma MirroredCell(a: seq<uint8>, r: Rect, m: MirrorType, i: int, j: int)
    requires r.FitsIn(|a|) && 0 <= i < r.rows && 0 <= j < r.cols
    ensures var c := Partner(m, r.rows, r.cols, i, j);
            0 <= c.0 < r.rows && 0 <= c.1 < r.cols &&
            0 <= r.At(i, j) < |a| && 0 <= r.At(c.0, c.1) < |a| &&
            Mirrored(a, r, m)[r.At(i, j)] == a[r.At(c.0, c.1)]
    ensures forall k :: 0 <= k < |a| && !r.Contains(k) ==> Mirrored(a, r, m)[k] == a[k]
  {
    CellOf(r, i, j);
    CellInBounds(r, i, j, |a|);
    var c := Partner(m, r.rows, r.cols, i, j);
    CellInBounds(r, c.0, c.1, |a|);
  }

  /** Index form of `Mirrored`. */
  lemma MirroredAt(a: seq<uint8>, r: Rect, m: MirrorType, k: int)
    requires r.FitsIn(|a|) && 0 <= k < |a|
    ensures r.Contains(k) ==> r.Contains(Source(r, m, k)) && 0 <= Source(r, m, k) < |a|
                              && Mirrored(a, r, m)[k] == a[Source(r, m, k)]
    ensures !r.Contains(k) ==> Mirrored(a, r, m)[k] == a[k]
  {
    if r.Contains(k) {
      SourceInWindow(r, m, k);
      ContainsInBounds(r, Source(r, m, k), |a|);
    }
  }

  /** Every mirror is an involution: mirroring twice restores the plane. */
  lemma MirroredTwice(a: seq<uint8>, r: Rect, m: MirrorType)
    requires r.FitsIn(|a|)
    ensures Mirrored(Mirrored(a, r, m), r, m) == a
  {
    var b := Mirrored(a, r, m);
    forall k | 0 <= k < |a|
      ensures Mirrored(b, r, m)[k] == a[k]
    {
      if r.Contains(k) {
        CellAt(r, k);
        var c := Partner(m, r.rows, r.cols, r.Row(k), r.Col(k));
        MirroredCell(b, r, m, r.Row(k), r.Col(k));
        MirroredCell(a, r, m, c.0, c.1);
      }
    }
  }

  /** Lines finished after `j` passes of a mirror's outer loop: the vertical
      and central mirrors finish line `j` and line `rows - 1 - j` together. */
  predicate LineDone(m: MirrorType, rows: int, i: int, j: int)
  {
    i < j || (m != HorizontalMirror && i >= rows - j)
  }

  /** `a` is `a0` with the finished lines mirrored. */
  ghost predicate MirroredUpTo(a0: seq<uint8>, a: seq<uint8>, r: Rect, m: MirrorType, j: int)
    requires r.FitsIn(|a0|)
  {
    |a| == |a0| &&
    forall k :: 0 <= k < |a| ==>
      a[k] == if r.Contains(k) && LineDone(m, r.rows, r.Row(k), j) then Mirrored(a0, r, m)[k] else a0[k]
  }

  /** Before the first pass nothing has moved. */
  lemma NoPassYet(a0: seq<uint8>, r: Rect, m: MirrorType)
    requires r.FitsIn(|a0|)
    ensures MirroredUpTo(a0, a0, r, m, 0)
  {
    forall k | 0 <= k < |a0| && r.Contains(k)
      ensures !LineDone(m, r.rows, r.Row(k), 0)
    {
      CellAt(r, k);
    }
  }

  /** `a` after pass `j`: the lines it finishes take their partners' bytes. */
  ghost function AfterPass(a: seq<uint8>, r: Rect, m: MirrorType, j: int): (t: seq<uint8>)
    requires r.FitsIn(|a|)
    ensures |t| == |a|
  {
    seq(|a|, k requires 0 <= k < |a| =>
      if r.Contains(k) && LineDone(m, r.rows, r.Row(k), j + 1) && !LineDone(m, r.rows, r.Row(k), j) then
        SourceInWindow(r, m, k);
        ContainsInBounds(r, Source(r, m, k), |a|);
        a[Source(r, m, k)]
      else a[k])
  }

  /** One pass moves the partners into the lines it finishes, reading them
      from lines no earlier pass has touched. */
  lemma PassStep(a0: seq<uint8>, a: seq<uint8>, a': seq<uint8>, r: Rect, m: MirrorType, j: int)
    requires r.FitsIn(|a0|) && MirroredUpTo(a0, a, r, m, j)
    requires 0 <= j && (if m == HorizontalMirror then j < r.rows else j <= r.rows - 1 - j)
    requires a' == AfterPass(a, r, m, j)
    ensures MirroredUpTo(a0, a', r, m, j + 1)
  {
    forall k | 0 <= k < |a'|
      ensures a'[k] == if r.Contains(k) && LineDone(m, r.rows, r.Row(k), j + 1) then Mirrored(a0, r, m)[k] else a0[k]
    {
      if r.Contains(k) && LineDone(m, r.rows, r.Row(k), j + 1) && !LineDone(m, r.rows, r.Row(k), j) {
        SourceInWindow(r, m, k);
        var s := Source(r, m, k);
        ContainsInBounds(r, s, |a0|);
        assert !LineDone(m, r.rows, r.Row(s), j);
        assert a[s] == a0[s];
      }
    }
  }

  /** After the last pass every line that moves is finished. */
  lemma PassesDone(a0: seq<uint8>, a: seq<uint8>, r: Rect, m: MirrorType, j: int)
    requires r.FitsIn(|a0|) && MirroredUpTo(a0, a, r, m, j)
    requires (m == HorizontalMirror && j == r.rows) || (m == VerticalMirror && j == r.rows / 2)
             || (m == CentralMirror && j == (r.rows + 1) / 2)
    ensures a == Mirrored(a0, r, m)
  {
    forall k | 0 <= k < |a| && r.Contains(k) && !LineDone(m, r.rows, r.Row(k), j)
      ensures a[k] == Mirrored(a0, r, m)[k]
    {
      CellAt(r, k);
      MirroredCell(a0, r, m, r.Row(k), r.Col(k));
    }
  }

  /** `a` with `n` bytes walking forward from `p` exchanged with `n` bytes
      walking backward from `e`. */
  ghost function Swapped(a: seq<uint8>, p: int, e: int, n: int): (t: seq<uint8>)
    requires 0 <= n && (n > 0 ==> 0 <= p && p + n <= e - n + 1 && e < |a|)
    ensures |t| == |a|
  {
    seq(|a|, k requires 0 <= k < |a| =>
      if p <= k < p + n then a[e - (k - p)]
      else if e - n < k <= e then a[p + (e - k)]
      else a[k])
  }

  /** The inner loop of the horizontal and central mirrors. */
  method SwapReversed(a: array<uint8>, p: int, e: int, n: int)
    requires 0 <= n && (n > 0 ==> 0 <= p && p + n <= e - n + 1 && e < a.Length)
    modifies a
    ensures a[..] == Swapped(old(a[..]), p, e, n)
  {
    var t := 0;
    while t < n
      invariant 0 <= t <= n
      invariant forall k :: 0 <= k < a.Length ==>
                  a[k] == if p <= k < p + t then old(a[e - (k - p)])
                          else if e - t < k <= e then old(a[p + (e - k)])
                          else old(a[k])
    {
      a[p + t], a[e - t] := a[e - t], a[p + t];
      t := t + 1;
    }
  }

  /** Line `j` lies after the lines above it: at least one stride per line. */
  lemma LinesApart(r: Rect, i: int, j: int)
    requires r.Valid() && 0 <= i < j
    ensures r.At(i, 0) + r.stride <= r.At(j, 0)
  {
    MulMonotone(i + 1, j, r.stride);
  }

  /** A horizontal pass reverses line `j` in place. */
  lemma HorizontalPass(a: seq<uint8>, r: Rect, j: int)
    requires r.FitsIn(|a|) && 0 <= j < r.rows && r.cols > 1
    ensures 0 <= r.At(j, 0) && r.At(j, r.cols - 1) < |a|
    ensures Swapped(a, r.At(j, 0), r.At(j, r.cols - 1), r.cols / 2) == AfterPass(a, r, HorizontalMirror, j)
  {
    CellInBounds(r, j, 0, |a|);
    CellInBounds(r, j, r.cols - 1, |a|);
    var p, e, n := r.At(j, 0), r.At(j, r.cols - 1), r.cols / 2;
    forall k | 0 <= k < |a|
      ensures Swapped(a, p, e, n)[k] == AfterPass(a, r, HorizontalMirror, j)[k]
    {
      LineSpan(r, j, k);
    }
  }

  /** A central pass exchanges line `j` with line `rows - 1 - j`, both read
      backwards; on the middle line of an odd height it reverses that line. */
  lemma CentralPass(a: seq<uint8>, r: Rect, j: int, n: int, q: int, e: int)
    requires r.FitsIn(|a|) && 0 <= j <= r.rows - 1 - j
    requires q == r.At(j, 0) && e == r.At(r.rows - 1 - j, r.cols - 1)
    requires n == if j < r.rows - 1 - j then r.cols else r.cols / 2
    ensures n > 0 ==> 0 <= q && q + n <= e - n + 1 && e < |a|
    ensures Swapped(a, q, e, n) == AfterPass(a, r, CentralMirror, j)
  {
    var j' := r.rows - 1 - j;
    if r.cols > 0 {
      CellInBounds(r, j, 0, |a|);
      CellInBounds(r, j', r.cols - 1, |a|);
      if j < j' {
        LinesApart(r, j, j');
      }
      forall k | 0 <= k < |a|
        ensures Swapped(a, q, e, n)[k] == AfterPass(a, r, CentralMirror, j)[k]
      {
        LineSpan(r, j, k);
        LineSpan(r, j', k);
      }
    }
  }

  /** Distance from the start of line `j` to `image_center`, the cell
      (rows / 2, cols / 2). */
  lemma CenterAhead(r: Rect, j: int)
    requires r.Valid() && 0 <= j <= r.rows / 2
    ensures j < r.rows / 2 ==> r.At(r.rows / 2, r.cols / 2) - r.At(j, 0) >= r.cols
    ensures j == r.rows / 2 ==> r.At(r.rows / 2, r.cols / 2) - r.At(j, 0) == r.cols / 2
  {
    if j < r.rows / 2 {
      LinesApart(r, j, r.rows / 2);
    }
  }

  /** `a` after `memcpy(tmp, top, n); memcpy(top, bottom, n); memcpy(bottom, tmp, n)`. */
  ghost function Exchanged(a: seq<uint8>, top: int, bottom: int, n: int): (t: seq<uint8>)
    requires 0 <= n && (n > 0 ==> 0 <= top && top + n <= bottom && bottom + n <= |a|)
    ensures |t| == |a|
  {
    seq(|a|, k requires 0 <= k < |a| =>
      if top <= k < top + n then a[k - top + bottom]
      else if bottom <= k < bottom + n then a[k - bottom + top]
      else a[k])
  }

  /** The three `memcpy` calls of one vertical pass, through the scratch
      line `tmp`. */
  method ExchangeLines(a: array<uint8>, tmp: array<uint8>, top: int, bottom: int, n: int)
    requires a != tmp && n <= tmp.Length
    requires 0 <= n && (n > 0 ==> 0 <= top && top + n <= bottom && bottom + n <= a.Length)
    modifies a, tmp
    ensures a[..] == Exchanged(old(a[..]), top, bottom, n)
  {
    ghost var a0, tmp0 := a[..], tmp[..];
    CopyBytes(tmp, 0, a, top, n);
    ghost var tmp1 := tmp[..];
    CopyBytes(a, top, a, bottom, n);
    ghost var a1 := a[..];
    CopyBytes(a, bottom, tmp, 0, n);
    assert a[..] == Spliced(a1, bottom, tmp1, 0, n);
    assert a1 == Spliced(a0, top, a0, bottom, n);
    assert a[..] == Exchanged(a0, top, bottom, n);
  }

  /** A vertical pass exchanges line `j` with line `rows - 1 - j`. */
  lemma VerticalPass(a: seq<uint8>, r: Rect, j: int, top: int, bottom: int)
    requires r.FitsIn(|a|) && 0 <= j < r.rows - 1 - j
    requires top == r.At(j, 0) && bottom == r.At(r.rows - 1 - j, 0)
    ensures r.cols > 0 ==> 0 <= top && top + r.cols <= bottom && bottom + r.cols <= |a|
    ensures Exchanged(a, top, bottom, r.cols) == AfterPass(a, r, VerticalMirror, j)
  {
    var j' := r.rows - 1 - j;
    LinesApart(r, j, j');
    if r.cols > 0 {
      CellInBounds(r, j, 0, |a|);
      CellInBounds(r, j', r.cols - 1, |a|);
      forall k | 0 <= k < |a|
        ensures Exchanged(a, top, bottom, r.cols)[k] == AfterPass(a, r, VerticalMirror, j)[k]
      {
        LineSpan(r, j, k);
        LineSpan(r, j', k);
      }
    }
  }

  /** `plane_horizontal_mirror`: reverse the first `w` bytes of each of the
      `h` lines. */
  method PlaneHorizontalMirror(a: array<uint8>, p: int, linesize: int, w: int, h: int)
    requires Rect(p, linesize, h, w).FitsIn(a.Length)
    modifies a
    ensures a[..] == Mirrored(old(a[..]), Rect(p, linesize, h, w), HorizontalMirror)
  {
    ghost var r, a0 := Rect(p, linesize, h, w), a[..];
    var line := p;
    NoPassYet(a0, r, HorizontalMirror);
    var j := 0;
    while j < h
      invariant 0 <= j <= h && line == r.At(j, 0)
      invariant MirroredUpTo(a0, a[..], r, HorizontalMirror, j)
    {
      ghost var before := a[..];
      if w > 1 {
        HorizontalPass(before, r, j);
      }
      SwapReversed(a, line, line + w - 1, w / 2);
      if w <= 1 {
        assert AfterPass(before, r, HorizontalMirror, j) == before by {
          forall k | 0 <= k < |before| && r.Contains(k) && r.Row(k) == j
            ensures Source(r, HorizontalMirror, k) == k
          {
            CellAt(r, k);
          }
        }
      }
      PassStep(a0, before, a[..], r, HorizontalMirror, j);
      NextLine(r, j);
      line := line + linesize;
      j := j + 1;
    }
    PassesDone(a0, a[..], r, HorizontalMirror, j);
  }

  /** `plane_vertical_mirror`: exchange line `j` with line `h - 1 - j` for
      `j < h / 2` through a scratch line; the middle line of an odd height
      stays. */
  method PlaneVerticalMirror(a: array<uint8>, p: int, linesize: int, w: int, h: int)
    requires Rect(p, linesize, h, w).FitsIn(a.Length)
    modifies a
    ensures a[..] == Mirrored(old(a[..]), Rect(p, linesize, h, w), VerticalMirror)
  {
    ghost var r, a0 := Rect(p, linesize, h, w), a[..];
    var tmp := new uint8[w * 4];
    var top, bottom := p, p + (h - 1) * linesize;
    NoPassYet(a0, r, VerticalMirror);
    var j := 0;
    while j < h / 2
      invariant 0 <= j <= h / 2 && top == r.At(j, 0) && bottom == r.At(h - 1 - j, 0)
      invariant MirroredUpTo(a0, a[..], r, VerticalMirror, j)
    {
      ghost var before := a[..];
      VerticalPass(before, r, j, top, bottom);
      ExchangeLines(a, tmp, top, bottom, w);
      PassStep(a0, before, a[..], r, VerticalMirror, j);
      NextLine(r, j);
      NextLine(r, h - 2 - j);
      top, bottom := top + linesize, bottom - linesize;
      j := j + 1;
    }
    PassesDone(a0, a[..], r, VerticalMirror, j);
  }

  /** The body of `plane_central_mirror` with its outer loop bound `passes`:
      `p` walks forward from the first byte and `end_of_image` backward from
      the last, swapping as they go; the inner loop also stops when `p`
      reaches `image_center`. */
  method CentralPasses(a: array<uint8>, p: int, linesize: int, w: int, h: int, passes: int)
    requires Rect(p, linesize, h, w).FitsIn(a.Length)
    requires passes == h / 2 || passes == (h + 1) / 2
    modifies a
    ensures MirroredUpTo(old(a[..]), a[..], Rect(p, linesize, h, w), CentralMirror, passes)
  {
    ghost var r, a0 := Rect(p, linesize, h, w), a[..];
    var q, e := p, p + (h - 1) * linesize + w - 1;
    var center := p + (h / 2) * linesize + w / 2;
    NoPassYet(a0, r, CentralMirror);
    var j := 0;
    while j < passes
      invariant 0 <= j <= passes
      invariant j <= h / 2 ==> q == r.At(j, 0) && e == r.At(h - 1 - j, w - 1)
      invariant MirroredUpTo(a0, a[..], r, CentralMirror, j)
    {
      ghost var before := a[..];
      CenterAhead(r, j);
      var n := if center - q < w then center - q else w;
      CentralPass(before, r, j, n, q, e);
      SwapReversed(a, q, e, n);
      PassStep(a0, before, a[..], r, CentralMirror, j);
      NextLine(r, j);
      NextLine(r, h - 2 - j);
      q, e := q + n + (linesize - w), e - n - (linesize - w);
      j := j + 1;
    }
  }

  /** What `plane_central_mirror` computes: the top `h / 2` lines and the
      bottom `h / 2` lines are rotated by 180 degrees, and for an odd height
      the middle line keeps its bytes. */
  ghost function CentralAsWritten(a: seq<uint8>, r: Rect): (t: seq<uint8>)
    requires r.FitsIn(|a|)
    ensures |t| == |a|
  {
    seq(|a|, k requires 0 <= k < |a| =>
      if r.Contains(k) && LineDone(CentralMirror, r.rows, r.Row(k), r.rows / 2)
      then Mirrored(a, r, CentralMirror)[k] else a[k])
  }

  /** `plane_central_mirror` as written: the outer loop runs `h / 2` times. */
  method PlaneCentralMirrorAsWritten(a: array<uint8>, p: int, linesize: int, w: int, h: int)
    requires Rect(p, linesize, h, w).FitsIn(a.Length)
    modifies a
    ensures a[..] == CentralAsWritten(old(a[..]), Rect(p, linesize, h, w))
  {
    CentralPasses(a, p, linesize, w, h, h / 2);
  }

  /** `plane_central_mirror` with the outer loop running `(h + 1) / 2` times,
      so that the `image_center` test ends the middle line half way: a
      rotation of the whole plane by 180 degrees. */
  method PlaneCentralMirror(a: array<uint8>, p: int, linesize: int, w: int, h: int)
    requires Rect(p, linesize, h, w).FitsIn(a.Length)
    modifies a
    ensures a[..] == Mirrored(old(a[..]), Rect(p, linesize, h, w), CentralMirror)
  {
    ghost var a0 := a[..];
    CentralPasses(a, p, linesize, w, h, (h + 1) / 2);
    PassesDone(a0, a[..], Rect(p, linesize, h, w), CentralMirror, (h + 1) / 2);
  }

  /** For an even height the code as written rotates the whole plane. */
  lemma CentralAsWrittenEvenHeight(a: seq<uint8>, r: Rect)
    requires r.FitsIn(|a|) && r.rows % 2 == 0
    ensures CentralAsWritten(a, r) == Mirrored(a, r, CentralMirror)
  {
    forall k | 0 <= k < |a| && r.Contains(k)
      ensures LineDone(CentralMirror, r.rows, r.Row(k), r.rows / 2)
    {
    }
  }

  /** For an odd height the code as written leaves the middle line as it was. */
  lemma CentralAsWrittenKeepsMiddleLine(a: seq<uint8>, r: Rect, j: int)
    requires r.FitsIn(|a|) && r.rows % 2 == 1 && 0 <= j < r.cols
    ensures 0 <= r.At(r.rows / 2, j) < |a|
    ensures CentralAsWritten(a, r)[r.At(r.rows / 2, j)] == a[r.At(r.rows / 2, j)]
  {
    CellOf(r, r.rows / 2, j);
    CellInBounds(r, r.rows / 2, j, |a|);
  }

  /** For an odd height whose middle line does not read the same backwards
      (one line holding the bytes [1, 2], say) the code as written is not a
      rotation. */
  lemma CentralAsWrittenNotRotation(a: seq<uint8>, r: Rect)
    requires r.FitsIn(|a|) && r.rows % 2 == 1 && r.cols > 0
    requires 0 <= r.At(r.rows / 2, 0) && r.At(r.rows / 2, r.cols - 1) < |a|
    requires a[r.At(r.rows / 2, 0)] != a[r.At(r.rows / 2, r.cols - 1)]
    ensures CentralAsWritten(a, r) != Mirrored(a, r, CentralMirror)
  {
    var m := r.rows / 2;
    CentralAsWrittenKeepsMiddleLine(a, r, 0);
    MirroredCell(a, r, CentralMirror, m, 0);
    assert Mirrored(a, r, CentralMirror)[r.At(m, 0)] == a[r.At(m, r.cols - 1)];
  }

  /** `MS_NO_MIRROR` leaves the plane as it is. */
  lemma NoMirrorKeeps(a: seq<uint8>, r: Rect)
    requires r.FitsIn(|a|)
    ensures Mirrored(a, r, NoMirror) == a
  {
    forall k | 0 <= k < |a| && r.Contains(k)
      ensures Source(r, NoMirror, k) == k
    {
      CellAt(r, k);
    }
  }

  /** `plane_mirror`: dispatch on the mirror type.  The central case uses
      the corrected `PlaneCentralMirror`. */
  method PlaneMirror(m: MirrorType, a: array<uint8>, p: int, linesize: int, w: int, h: int)
    requires Rect(p, linesize, h, w).FitsIn(a.Length)
    modifies a
    ensures a[..] == Mirrored(old(a[..]), Rect(p, linesize, h, w), m)
  {
    match m
    case HorizontalMirror => PlaneHorizontalMirror(a, p, linesize, w, h);
    case VerticalMirror => PlaneVerticalMirror(a, p, linesize, w, h);
    case CentralMirror => PlaneCentralMirror(a, p, linesize, w, h);
    case NoMirror => NoMirrorKeeps(a[..], Rect(p, linesize, h, w));
  }

  // --------------------------------------------------------------- rgb24

  /** Byte `c` of a line of `w` three-byte pixels after the pixels of the
      line are reversed: pixel `c / 3` takes pixel `w - 1 - c / 3`, and the
      byte keeps its place `c % 3` inside the pixel. */
  function PixelPartner(w: int, c: int): (r: int)
    ensures 0 <= c < 3 * w ==> 0 <= r < 3 * w
  {
    3 * (w - 1 - c / 3) + c % 3
  }

  lemma PixelPartnerInLine(w: int, c: int)
    requires 0 <= c < 3 * w
    ensures 0 <= PixelPartner(w, c) < 3 * w
    ensures PixelPartner(w, c) / 3 == w - 1 - c / 3 && PixelPartner(w, c) % 3 == c % 3
    ensures PixelPartner(w, PixelPartner(w, c)) == c
  {
  }

  /** `a` with the `w` pixels of the line at `line` reversed. */
  ghost function LinePixelsReversed(a: seq<uint8>, line: int, w: int): (t: seq<uint8>)
    requires 0 <= w && (w > 0 ==> 0 <= line && line + 3 * w <= |a|)
    ensures |t| == |a|
  {
    seq(|a|, k requires 0 <= k < |a| =>
      if line <= k < line + 3 * w then
        a[line + PixelPartner(w, k - line)]
      else a[k])
  }

  /** Byte `k` belongs to one of the first `t` or the last `t` pixels of
      the line at `line` (pixel `x` is bytes `3 * x` to `3 * x + 2`). */
  predicate PixelDone(line: int, w: int, t: int, k: int)
  {
    line <= k < line + 3 * w && (k < line + 3 * t || line + 3 * (w - t) <= k)
  }

  /** The line at `line` with its first `t` and its last `t` pixels
      reversed and the pixels between them untouched. */
  ghost function PartlyReversed(a0: seq<uint8>, line: int, w: int, t: int): (r: seq<uint8>)
    requires 0 <= w && (w > 0 ==> 0 <= line && line + 3 * w <= |a0|)
    ensures |r| == |a0|
  {
    seq(|a0|, k requires 0 <= k < |a0| =>
      if PixelDone(line, w, t, k) then
        a0[line + PixelPartner(w, k - line)]
      else a0[k])
  }

  /** `a` with the three bytes at `p` and the three bytes at `q` exchanged. */
  ghost function PixelsExchanged(a: seq<uint8>, p: int, q: int): (t: seq<uint8>)
    requires 0 <= p && p + 3 <= |a| && 0 <= q && q + 3 <= |a|
    ensures |t| == |a|
  {
    a[p := a[q]][p + 1 := a[q + 1]][p + 2 := a[q + 2]][q := a[p]][q + 1 := a[p + 1]][q + 2 := a[p + 2]]
  }

  lemma PixelsExchangedAt(a: seq<uint8>, p: int, q: int, k: int)
    requires 0 <= p && p + 3 <= |a| && 0 <= q && q + 3 <= |a| && (p == q || p + 3 <= q)
    requires 0 <= k < |a|
    ensures PixelsExchanged(a, p, q)[k] ==
              if p <= k < p + 3 then a[k - p + q] else if q <= k < q + 3 then a[k - q + p] else a[k]
  {
  }

  /** The body of the inner loop of `rgb24_mirror`: the pixel at `p` and
      the pixel at `q` change places (they are the same pixel or do not
      overlap). */
  method ExchangePixels(buf: array<uint8>, p: int, q: int)
    requires 0 <= p && p + 3 <= buf.Length && 0 <= q && q + 3 <= buf.Length
    requires p == q || p + 3 <= q
    modifies buf
    ensures buf[..] == PixelsExchanged(old(buf[..]), p, q)
  {
    var r, g, b := buf[p], buf[p + 1], buf[p + 2];
    buf[p] := buf[q];
    buf[p + 1] := buf[q + 1];
    buf[p + 2] := buf[q + 2];
    buf[q] := r;
    buf[q + 1] := g;
    buf[q + 2] := b;
  }

  /** The partner of a byte of pixel `t` lies in pixel `w - 1 - t`, at the
      same place inside the pixel, and the other way round. */
  lemma PixelStepIndex(line: int, w: int, t: int, k: int)
    requires 0 <= t <= w - 1 - t && line <= k < line + 3 * w
    ensures var e := line + PixelPartner(w, k - line);
            && line <= e < line + 3 * w
            && (line + 3 * t <= k < line + 3 * t + 3 ==> e == k + 3 * (w - 1 - 2 * t))
            && (line + 3 * (w - 1 - t) <= k < line + 3 * (w - t) ==> e == k - 3 * (w - 1 - 2 * t))
  {
    var c := k - line;
    PixelPartnerInLine(w, c);
    assert c == 3 * (c / 3) + c % 3;
    if line + 3 * t <= k < line + 3 * t + 3 {
      assert c / 3 == t;
    }
    if line + 3 * (w - 1 - t) <= k < line + 3 * (w - t) {
      assert c / 3 == w - 1 - t;
    }
  }

  /** One byte of `PixelStep`. */
  lemma PixelStepAt(a0: seq<uint8>, line: int, w: int, t: int, p: int, q: int, k: int)
    requires 0 <= t <= w - 1 - t && 0 <= line && line + 3 * w <= |a0|
    requires p == line + 3 * t && q == line + 3 * (w - 1 - t) && 0 <= k < |a0|
    ensures PixelsExchanged(PartlyReversed(a0, line, w, t), p, q)[k] == PartlyReversed(a0, line, w, t + 1)[k]
  {
    var a, a' := PartlyReversed(a0, line, w, t), PartlyReversed(a0, line, w, t + 1);
    PixelsExchangedAt(a, p, q, k);
    if line <= k < line + 3 * w {
      var e := line + PixelPartner(w, k - line);
      PixelStepIndex(line, w, t, k);
      if p <= k < p + 3 || q <= k < q + 3 {
        assert PixelsExchanged(a, p, q)[k] == a[e];
        assert !PixelDone(line, w, t, e) && PixelDone(line, w, t + 1, k);
      } else {
        assert PixelDone(line, w, t + 1, k) == PixelDone(line, w, t, k);
      }
    } else {
      assert !PixelDone(line, w, t + 1, k) && !PixelDone(line, w, t, k);
    }
  }

  /** Exchanging pixel `t` with pixel `w - 1 - t` extends the reversal. */
  lemma PixelStep(a0: seq<uint8>, line: int, w: int, t: int, p: int, q: int)
    requires 0 <= t <= w - 1 - t && 0 <= line && line + 3 * w <= |a0|
    requires p == line + 3 * t && q == line + 3 * (w - 1 - t)
    ensures PixelsExchanged(PartlyReversed(a0, line, w, t), p, q) == PartlyReversed(a0, line, w, t + 1)
  {
    forall k | 0 <= k < |a0|
      ensures PixelsExchanged(PartlyReversed(a0, line, w, t), p, q)[k] == PartlyReversed(a0, line, w, t + 1)[k]
    {
      PixelStepAt(a0, line, w, t, p, q, k);
    }
  }

  /** Before the loop nothing is reversed; once the two halves have met,
      the whole line is. */
  lemma PartlyReversedEnds(a0: seq<uint8>, line: int, w: int, t: int)
    requires 0 <= w && (w > 0 ==> 0 <= line && line + 3 * w <= |a0|)
    ensures PartlyReversed(a0, line, w, 0) == a0
    ensures w <= 2 * t ==> PartlyReversed(a0, line, w, t) == LinePixelsReversed(a0, line, w)
  {
    forall k | 0 <= k < |a0|
      ensures PartlyReversed(a0, line, w, 0)[k] == a0[k]
    {
      assert !PixelDone(line, w, 0, k);
    }
    if w <= 2 * t {
      forall k | 0 <= k < |a0|
        ensures PartlyReversed(a0, line, w, t)[k] == LinePixelsReversed(a0, line, w)[k]
      {
        assert PixelDone(line, w, t, k) <==> line <= k < line + 3 * w;
      }
    }
  }

  /** The inner loop of `rgb24_mirror`: `j` steps by three bytes through
      the first half of the line, exchanging pixel `j / 3` with pixel
      `w - 1 - j / 3` byte by byte. */
  method MirrorPixelLine(buf: array<uint8>, line: int, w: int)
    requires 0 <= w && (w > 0 ==> 0 <= line && line + 3 * w <= buf.Length)
    modifies buf
    ensures buf[..] == LinePixelsReversed(old(buf[..]), line, w)
  {
    ghost var a0 := buf[..];
    PartlyReversedEnds(a0, line, w, 0);
    var end := w * 3;
    var j := 0;
    ghost var t := 0;
    while j < end / 2
      invariant 0 <= t && j == 3 * t && (t > 0 ==> 2 * (t - 1) < w)
      invariant buf[..] == PartlyReversed(a0, line, w, t)
    {
      var left, right := line + j, line + end - j - 3;
      assert 2 * t < w && left == line + 3 * t && right == line + 3 * (w - 1 - t);
      ExchangePixels(buf, left, right);
      PixelStep(a0, line, w, t, left, right);
      j, t := j + 3, t + 1;
    }
    PartlyReversedEnds(a0, line, w, t);
  }

  /** An RGB24 plane (a window of `3 * w` bytes per line) with the pixels
      of every line reversed. */
  ghost function PixelsMirrored(a: seq<uint8>, r: Rect, w: int): (t: seq<uint8>)
    requires r.FitsIn(|a|) && r.cols == 3 * w
    ensures |t| == |a|
  {
    seq(|a|, k requires 0 <= k < |a| =>
      if r.Contains(k) then
        CellAt(r, k);
        CellInBounds(r, r.Row(k), PixelPartner(w, r.Col(k)), |a|);
        a[r.At(r.Row(k), PixelPartner(w, r.Col(k)))]
      else a[k])
  }

  /** Pixel `x` of line `i` takes pixel `w - 1 - x`, byte for byte. */
  lemma PixelsMirroredCell(a: seq<uint8>, r: Rect, w: int, i: int, x: int, b: int)
    requires r.FitsIn(|a|) && r.cols == 3 * w && 0 <= i < r.rows && 0 <= x < w && 0 <= b < 3
    ensures 0 <= r.At(i, 3 * x + b) < |a| && 0 <= r.At(i, 3 * (w - 1 - x) + b) < |a|
    ensures PixelsMirrored(a, r, w)[r.At(i, 3 * x + b)] == a[r.At(i, 3 * (w - 1 - x) + b)]
  {
    CellOf(r, i, 3 * x + b);
    CellInBounds(r, i, 3 * x + b, |a|);
    CellInBounds(r, i, 3 * (w - 1 - x) + b, |a|);
    assert (3 * x + b) / 3 == x && (3 * x + b) % 3 == b;
  }

  /** Mirroring the pixels twice restores the plane. */
  lemma PixelsMirroredTwice(a: seq<uint8>, r: Rect, w: int)
    requires r.FitsIn(|a|) && r.cols == 3 * w
    ensures PixelsMirrored(PixelsMirrored(a, r, w), r, w) == a
  {
    var b := PixelsMirrored(a, r, w);
    forall k | 0 <= k < |a|
      ensures PixelsMirrored(b, r, w)[k] == a[k]
    {
      if r.Contains(k) {
        CellAt(r, k);
        var i, c := r.Row(k), r.Col(k);
        PixelPartnerInLine(w, c);
        CellOf(r, i, PixelPartner(w, c));
        CellInBounds(r, i, PixelPartner(w, c), |a|);
      }
    }
  }

  /** The lines above `i` have their pixels reversed. */
  ghost predicate PixelsMirroredUpTo(a0: seq<uint8>, a: seq<uint8>, r: Rect, w: int, i: int)
    requires r.FitsIn(|a0|) && r.cols == 3 * w
  {
    |a| == |a0| &&
    forall k :: 0 <= k < |a| ==>
      a[k] == if r.Contains(k) && r.Row(k) < i then PixelsMirrored(a0, r, w)[k] else a0[k]
  }

  lemma NoPixelLineYet(a0: seq<uint8>, r: Rect, w: int)
    requires r.FitsIn(|a0|) && r.cols == 3 * w
    ensures PixelsMirroredUpTo(a0, a0, r, w, 0)
  {
    forall k | 0 <= k < |a0| && r.Contains(k)
      ensures r.Row(k) >= 0
    {
      CellAt(r, k);
    }
  }

  /** Reversing the pixels of line `i` extends the mirror by one line. */
  lemma PixelLinePass(a0: seq<uint8>, a: seq<uint8>, r: Rect, w: int, i: int)
    requires r.FitsIn(|a0|) && r.cols == 3 * w && 0 <= i < r.rows
    requires PixelsMirroredUpTo(a0, a, r, w, i)
    ensures w > 0 ==> 0 <= r.At(i, 0) && r.At(i, 0) + 3 * w <= |a|
    ensures PixelsMirroredUpTo(a0, LinePixelsReversed(a, r.At(i, 0), w), r, w, i + 1)
  {
    if w > 0 {
      CellInBounds(r, i, 0, |a|);
      CellInBounds(r, i, 3 * w - 1, |a|);
    }
    var a' := LinePixelsReversed(a, r.At(i, 0), w);
    forall k | 0 <= k < |a'|
      ensures a'[k] == if r.Contains(k) && r.Row(k) < i + 1 then PixelsMirrored(a0, r, w)[k] else a0[k]
    {
      if r.stride > 0 {
        LineSpan(r, i, k);
        if r.Contains(k) && r.Row(k) == i {
          PixelPartnerInLine(w, r.Col(k));
          CellOf(r, i, PixelPartner(w, r.Col(k)));
        }
      }
    }
  }

  /** `rgb24_mirror`: reverse the `w` pixels of each of the `h` lines. */
  method Rgb24Mirror(buf: array<uint8>, p: int, w: int, h: int, linesize: int)
    requires Rect(p, linesize, h, 3 * w).FitsIn(buf.Length)
    modifies buf
    ensures buf[..] == PixelsMirrored(old(buf[..]), Rect(p, linesize, h, 3 * w), w)
  {
    ghost var r, a0 := Rect(p, linesize, h, 3 * w), buf[..];
    NoPixelLineYet(a0, r, w);
    var line := p;
    var i := 0;
    while i < h
      invariant 0 <= i <= h && line == r.At(i, 0)
      invariant PixelsMirroredUpTo(a0, buf[..], r, w, i)
    {
      PixelLinePass(a0, buf[..], r, w, i);
      MirrorPixelLine(buf, line, w);
      NextLine(r, i);
      line := line + linesize;
      i := i + 1;
    }
  }

  /** `src` line read backwards into `dst`: byte `n - 1 - j` of the
      destination line takes byte `j` of the source line. */
  ghost function ReversedInto(d: seq<uint8>, src: seq<uint8>, dp: int, sp: int, n: int): (t: seq<uint8>)
    requires 0 <= n && (n > 0 ==> 0 <= dp && dp + n <= |d| && 0 <= sp && sp + n <= |src|)
    ensures |t| == |d|
  {
    seq(|d|, k requires 0 <= k < |d| =>
      if dp <= k < dp + n then src[sp + (dp + n - 1 - k)] else d[k])
  }

  /** The inner loop of `rgb24_copy_revert`. */
  method CopyLineReversed(dst: array<uint8>, dp: int, src: array<uint8>, sp: int, n: int)
    requires src != dst
    requires 0 <= n && (n > 0 ==> 0 <= dp && dp + n <= dst.Length && 0 <= sp && sp + n <= src.Length)
    modifies dst
    ensures dst[..] == ReversedInto(old(dst[..]), src[..], dp, sp, n)
  {
    var j := 0;
    while j < n
      invariant 0 <= j <= n
      invariant forall k :: 0 <= k < dst.Length ==>
                  dst[k] == if dp + n - j <= k < dp + n then src[sp + (dp + n - 1 - k)] else old(dst[k])
    {
      dst[dp + n - 1 - j] := src[sp + j];
      j := j + 1;
    }
  }

  /** The destination lines from `rows - i` down hold the rotated source. */
  ghost predicate RevertedUpTo(d0: seq<uint8>, d: seq<uint8>, src: seq<uint8>, dr: Rect, sr: Rect, i: int)
    requires dr.FitsIn(|d0|) && sr.FitsIn(|src|) && dr.rows == sr.rows && dr.cols == sr.cols
  {
    |d| == |d0| &&
    forall k :: 0 <= k < |d| ==>
      d[k] == if dr.Contains(k) && dr.Row(k) >= dr.rows - i
              then Copied(d0, Mirrored(src, sr, CentralMirror), dr, sr)[k] else d0[k]
  }

  lemma RevertedAll(d0: seq<uint8>, d: seq<uint8>, src: seq<uint8>, dr: Rect, sr: Rect)
    requires dr.FitsIn(|d0|) && sr.FitsIn(|src|) && dr.rows == sr.rows && dr.cols == sr.cols
    requires RevertedUpTo(d0, d, src, dr, sr, dr.rows)
    ensures d == Copied(d0, Mirrored(src, sr, CentralMirror), dr, sr)
  {
    forall k | 0 <= k < |d| && dr.Contains(k)
      ensures dr.Row(k) >= 0
    {
      CellAt(dr, k);
    }
  }

  /** Source line `i` read backwards fills destination line `rows - 1 - i`. */
  lemma RevertLine(d0: seq<uint8>, d: seq<uint8>, src: seq<uint8>, dr: Rect, sr: Rect, i: int)
    requires dr.FitsIn(|d0|) && sr.FitsIn(|src|) && dr.rows == sr.rows && dr.cols == sr.cols
    requires 0 <= i < dr.rows && RevertedUpTo(d0, d, src, dr, sr, i)
    ensures dr.cols > 0 ==> 0 <= dr.At(dr.rows - 1 - i, 0) && dr.At(dr.rows - 1 - i, 0) + dr.cols <= |d|
                            && 0 <= sr.At(i, 0) && sr.At(i, 0) + dr.cols <= |src|
    ensures RevertedUpTo(d0, ReversedInto(d, src, dr.At(dr.rows - 1 - i, 0), sr.At(i, 0), dr.cols), src, dr, sr, i + 1)
  {
    var i' := dr.rows - 1 - i;
    if dr.cols > 0 {
      CellInBounds(dr, i', 0, |d|);
      CellInBounds(dr, i', dr.cols - 1, |d|);
      CellInBounds(sr, i, 0, |src|);
      CellInBounds(sr, i, sr.cols - 1, |src|);
    }
    var d' := ReversedInto(d, src, dr.At(i', 0), sr.At(i, 0), dr.cols);
    var rot := Mirrored(src, sr, CentralMirror);
    forall k | 0 <= k < |d'|
      ensures d'[k] == if dr.Contains(k) && dr.Row(k) >= dr.rows - (i + 1) then Copied(d0, rot, dr, sr)[k] else d0[k]
    {
      if dr.stride > 0 {
        LineSpan(dr, i', k);
        if dr.Contains(k) && dr.Row(k) == i' {
          var c := dr.Col(k);
          CopiedCell(d0, rot, dr, sr, i', c);
          MirroredCell(src, sr, CentralMirror, i', c);
        }
      }
    }
  }

  /** Byte `j` of source line `i` lands on byte `cols - 1 - j` of
      destination line `rows - 1 - i`. */
  lemma RevertedCell(d: seq<uint8>, src: seq<uint8>, dr: Rect, sr: Rect, i: int, j: int)
    requires dr.FitsIn(|d|) && sr.FitsIn(|src|) && dr.rows == sr.rows && dr.cols == sr.cols
    requires 0 <= i < dr.rows && 0 <= j < dr.cols
    ensures 0 <= dr.At(dr.rows - 1 - i, dr.cols - 1 - j) < |d| && 0 <= sr.At(i, j) < |src|
    ensures Copied(d, Mirrored(src, sr, CentralMirror), dr, sr)[dr.At(dr.rows - 1 - i, dr.cols - 1 - j)]
            == src[sr.At(i, j)]
  {
    var rot := Mirrored(src, sr, CentralMirror);
    CopiedCell(d, rot, dr, sr, dr.rows - 1 - i, dr.cols - 1 - j);
    MirroredCell(src, sr, CentralMirror, dr.rows - 1 - i, dr.cols - 1 - j);
  }

  /** `rgb24_copy_revert`: copy a `width` x `height` RGB24 region rotated by
      180 degrees, filling the destination from its last line upwards. */
  method Rgb24CopyRevert(dst: array<uint8>, dstbuf: int, dstlsz: int,
                         src: array<uint8>, srcbuf: int, srclsz: int,
                         width: int, height: int)
    requires src != dst
    requires Rect(dstbuf, dstlsz, height, 3 * width).FitsIn(dst.Length)
    requires Rect(srcbuf, srclsz, height, 3 * width).FitsIn(src.Length)
    modifies dst
    ensures dst[..] == Copied(old(dst[..]),
                              Mirrored(src[..], Rect(srcbuf, srclsz, height, 3 * width), CentralMirror),
                              Rect(dstbuf, dstlsz, height, 3 * width),
                              Rect(srcbuf, srclsz, height, 3 * width))
  {
    ghost var dr, sr, d0 := Rect(dstbuf, dstlsz, height, 3 * width), Rect(srcbuf, srclsz, height, 3 * width), dst[..];
    var psrc, pdst := srcbuf, dstbuf + dstlsz * (height - 1);
    var i := 0;
    while i < height
      invariant 0 <= i <= height && psrc == sr.At(i, 0) && pdst == dr.At(height - 1 - i, 0)
      invariant RevertedUpTo(d0, dst[..], src[..], dr, sr, i)
    {
      RevertLine(d0, dst[..], src[..], dr, sr, i);
      CopyLineReversed(dst, pdst, src, psrc, width * 3);
      NextLine(sr, i);
      NextLine(dr, height - 2 - i);
      pdst, psrc := pdst - dstlsz, psrc + srclsz;
      i := i + 1;
    }
    RevertedAll(d0, dst[..], src[..], dr, sr);
  }
}
