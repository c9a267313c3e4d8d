/** The integer geometry and control state of mediastreamer2's video output
    filter (videoout.c): the ratio reduction, the aspect-preserving fit of
    the picture in the window, the self-view sub-rectangle, the filter's
    settings and the per-tick rule that only the newest frame of each input
    is used and both inputs are emptied. */
module VideoOut {
  import opened CArith
  import Planes
  import MsVideo

  /** `MS_VIDEO_SIZE_CIF_W` x `MS_VIDEO_SIZE_CIF_H`, the initial frame size. */
  const CifW := 352
  const CifH := 288

  /** `MS_VIDEO_SIZE_QVGA_W` x `MS_VIDEO_SIZE_QVGA_H`, the autofit floor. */
  const QvgaW := 320
  const QvgaH := 240

  /** `SCALE_FACTOR`: the self-view is a quarter of the frame. */
  const DefaultScaleFactor := 4

  /** Margin, in pixels, between the window edge and the self-view. */
  const SelfviewMargin := 20

  /* ---------- gcd and reduce ---------- */

  /** `gcd`: Euclid's algorithm over C's remainder. */
  function Gcd(m: int, n: int): int
    decreases Abs(n)
  {
    if n == 0 then m else Gcd(n, CRem(m, n))
  }

  /** `d` divides both `a` and `b`, so it divides every combination. */
  lemma DividesCombination(d: int, x: int, y: int, a: int, b: int)
    requires d > 0 && x % d == 0 && y % d == 0
    ensures (a * x + b * y) % d == 0
  {
    var p, q := x / d, y / d;
    assert x == d * p && y == d * q;
    assert a * x + b * y == (a * p + b * q) * d;
    Planes.DivModUnique(a * x + b * y, d, a * p + b * q, 0);
  }

  /** For sizes that are not both zero the gcd is positive and divides both. */
  lemma {:induction false} GcdDivides(m: int, n: int)
    requires m >= 0 && n >= 0 && (m != 0 || n != 0)
    ensures Gcd(m, n) > 0 && m % Gcd(m, n) == 0 && n % Gcd(m, n) == 0
    decreases n
  {
    if n == 0 {
      Planes.DivModUnique(m, m, 1, 0);
    } else {
      var r := CRem(m, n);
      GcdDivides(n, r);
      DividesCombination(Gcd(n, r), n, r, m / n, 1);
      assert m == (m / n) * n + 1 * r;
    }
  }

  /** Every common divisor divides the gcd: it is the greatest. */
  lemma {:induction false} GcdGreatest(m: int, n: int, d: int)
    requires m >= 0 && n >= 0 && (m != 0 || n != 0)
    requires d > 0 && m % d == 0 && n % d == 0
    ensures Gcd(m, n) % d == 0
    decreases n
  {
    if n == 0 {
    } else {
      var r := CRem(m, n);
      DividesCombination(d, m, n, 1, -(m / n));
      assert r == 1 * m + (-(m / n)) * n;
      GcdGreatest(n, r, d);
    }
  }

  /** A multiple of `d` scaled by `g` is a multiple of `d * g`. */
  lemma ScaledMultiple(x: int, d: int, g: int)
    requires d > 0 && g > 0 && x % d == 0
    ensures (x * g) % (d * g) == 0
  {
    var t := x / d;
    assert x * g == t * (d * g);
    Planes.DivModUnique(x * g, d * g, t, 0);
  }

  /** A positive `g` that is a multiple of `d * g` leaves `d` no room above 1. */
  lemma UnitFactor(g: int, d: int)
    requires g > 0 && d > 0 && g % (d * g) == 0
    ensures d == 1
  {
    if d >= 2 {
      Planes.MulMonotone(2, d, g);
      Planes.DivModUnique(g, d * g, 0, g);
    }
  }

  /** Dividing both sizes by their gcd leaves a pair in lowest terms. */
  lemma LowestTerms(m: int, n: int, g: int, a: int, b: int)
    requires m >= 0 && n >= 0 && (m != 0 || n != 0)
    requires g == Gcd(m, n) && g > 0 && m == a * g && n == b * g && a >= 0 && b >= 0
    ensures Gcd(a, b) == 1
  {
    assert a != 0 || b != 0;
    GcdDivides(a, b);
    var d := Gcd(a, b);
    ScaledMultiple(a, d, g);
    ScaledMultiple(b, d, g);
    GcdGreatest(m, n, d * g);
    UnitFactor(g, d);
  }

  /** `a * c < b * c` with `c` positive puts `a` below `b`. */
  lemma MulCancel(a: int, b: int, c: int)
    requires c > 0 && a * c < b * c
    ensures a < b
  {
    if a >= b {
      assert a * c - b * c == (a - b) * c;
      Planes.MulMonotone(0, a - b, c);
    }
  }

  /** Two sizes that are the same multiple of `a` and `b` have the ratio
      `a : b`. */
  lemma CommonMultiple(a: int, b: int, g: int, m: int, n: int)
    requires m == a * g && n == b * g
    ensures a * n == b * m
  {
    calc {
      a * n;
      a * (b * g);
      (a * b) * g;
      (b * a) * g;
      b * (a * g);
      b * m;
    }
  }

  /** `reduce`: divide a ratio by its gcd in place.  The result is the same
      ratio (cross products agree), is in lowest terms, and is the original
      pair divided by its gcd. */
  method Reduce(num: int, denom: int) returns (rnum: int, rdenom: int)
    requires num >= 0 && denom >= 0 && (num != 0 || denom != 0)
    ensures Gcd(num, denom) > 0 && rnum * Gcd(num, denom) == num && rdenom * Gcd(num, denom) == denom
    ensures rnum * denom == rdenom * num
    ensures rnum >= 0 && rdenom >= 0 && Gcd(rnum, rdenom) == 1
  {
    var divisor := Gcd(num, denom);
    GcdDivides(num, denom);
    rnum := CDiv(num, divisor);
    rdenom := CDiv(denom, divisor);
    Planes.DivModUnique(num, divisor, rnum, 0);
    Planes.DivModUnique(denom, divisor, rdenom, 0);
    LowestTerms(num, denom, divisor, rnum, rdenom);
    CommonMultiple(rnum, rdenom, divisor, num, denom);
  }

  /* ---------- picture geometry in the window ---------- */

  /** A multiple of `r` scaled by `s` divides back exactly. */
  lemma ExactQuotient(k: int, r: int, s: int)
    requires r > 0
    ensures (k * r * s) / r == k * s
  {
    assert k * r * s == (k * s) * r;
    Planes.DivModUnique(k * r * s, r, k * s, 0);
  }

  /** Rounding down to a multiple of `r` stays between 0 and the value. */
  lemma FloorMultiple(x: int, r: int)
    requires x >= 0 && r > 0
    ensures 0 <= x / r && 0 <= (x / r) * r <= x
  { }

  /** Dividing by a positive integer does not make a size larger. */
  lemma DivShrinks(x: int, s: int)
    requires x >= 0 && s >= 1
    ensures 0 <= x / s <= x
  {
    Planes.MulMonotone(1, s, x / s);
  }

  /** The pair `Reduce` computes is `ReducedRatio`. */
  lemma SameReduction(m: int, n: int, rm: int, rn: int)
    requires m > 0 && n > 0 && Gcd(m, n) > 0 && rm * Gcd(m, n) == m && rn * Gcd(m, n) == n
    ensures ReducedRatio(m, n) == (rm, rn)
  {
    Planes.DivModUnique(m, Gcd(m, n), rm, 0);
    Planes.DivModUnique(n, Gcd(m, n), rn, 0);
  }

  /** One step of `r` past the largest multiple of `r` below `x` passes `x`. */
  lemma NextStepOverflows(x: int, r: int, k: int)
    requires x >= 0 && r > 0 && k == x / r
    ensures k * r + r > x
  {
    assert x == k * r + x % r;
  }

  /** `k` multiples of a reduced ratio `rw : rh` keep the ratio of the
      original `rw * g : rh * g`. */
  lemma SameRatio(k: int, rw: int, rh: int, g: int)
    ensures (k * rh) * (rw * g) == (k * rw) * (rh * g)
  { }

  /** Comparing `kh` and `kw` steps of the ratio through the cross products
      `win_display_update` compares picks the smaller number of steps. */
  lemma CompareMultiples(kw: int, kh: int, rw: int, rh: int)
    requires kw >= 0 && kh >= 0 && rw > 0 && rh > 0
    ensures (kh * rh) * rw > (kw * rw) * rh ==> kw <= kh
    ensures (kh * rh) * rw <= (kw * rw) * rh ==> kh <= kw
  {
    assert (kh * rh) * rw == kh * (rw * rh) && (kw * rw) * rh == kw * (rw * rh);
    if kw > kh {
      Planes.MulMonotone(kh + 1, kw, rw * rh);
    } else if kh > kw {
      Planes.MulMonotone(kw + 1, kh, rw * rh);
    }
  }

  /** A ratio `m : n` of positive sizes divided by its gcd. */
  function ReducedRatio(m: int, n: int): (r: (int, int))
    requires m > 0 && n > 0
    ensures r.0 > 0 && r.1 > 0 && r.0 * Gcd(m, n) == m && r.1 * Gcd(m, n) == n
  {
    GcdDivides(m, n);
    var g := Gcd(m, n);
    Planes.DivModUnique(m, g, m / g, 0);
    (m / g, n / g)
  }

  /** The number of whole steps of the ratio `rw : rh` that fit `right` x
      `bottom`: the smaller of `right / rw` and `bottom / rh`. */
  function FitSteps(rw: int, rh: int, right: int, bottom: int): int
    requires rw > 0 && rh > 0
  {
    if right / rw <= bottom / rh then right / rw else bottom / rh
  }

  /** The aspect fit of `win_display_update`: the largest picture of the
      frame's reduced ratio whose sides are multiples of that ratio and that
      fits the client rectangle.  The picture fits, and its ratio is the
      frame's exactly, so the "wrong ratio" check never fires; one more step
      of the ratio no longer fits. */
  method AspectFit(fbW: int, fbH: int, right: int, bottom: int) returns (w: int, h: int)
    requires fbW > 0 && fbH > 0 && right >= 0 && bottom >= 0
    ensures 0 <= w <= right && 0 <= h <= bottom
    ensures h * fbW == w * fbH
    ensures var r := ReducedRatio(fbW, fbH);
            w == FitSteps(r.0, r.1, right, bottom) * r.0 && h == FitSteps(r.0, r.1, right, bottom) * r.1
    ensures var r := ReducedRatio(fbW, fbH); w + r.0 > right || h + r.1 > bottom
  {
    var ratiow, ratioh := Reduce(fbW, fbH);
    ghost var g := Gcd(fbW, fbH);
    ghost var kw, kh := right / ratiow, bottom / ratioh;
    FloorMultiple(right, ratiow);
    FloorMultiple(bottom, ratioh);
    w := CDiv(right, ratiow) * ratiow;
    h := CDiv(bottom, ratioh) * ratioh;
    SameReduction(fbW, fbH, ratiow, ratioh);
    CompareMultiples(kw, kh, ratiow, ratioh);
    ghost var k;
    if h * ratiow > w * ratioh {
      ExactQuotient(kw, ratiow, ratioh);
      Planes.MulMonotone(kw, kh, ratioh);
      h := CDiv(w * ratioh, ratiow);
      k := kw;
    } else {
      ExactQuotient(kh, ratioh, ratiow);
      Planes.MulMonotone(kh, kw, ratiow);
      w := CDiv(h * ratiow, ratioh);
      k := kh;
    }
    assert k == FitSteps(ratiow, ratioh, right, bottom);
    assert h == k * ratioh && w == k * ratiow;
    SameRatio(k, ratiow, ratioh, g);
    NextStepOverflows(right, ratiow, kw);
    NextStepOverflows(bottom, ratioh, kh);
  }

  /** The self-view size of `win_display_update`: the width is the main
      picture's divided by the scale factor, rounded down to a multiple of
      the self-view frame's reduced ratio, and the height follows that
      ratio.  The scale factor is a positive integer here. */
  method SelfviewSize(w: int, scale: int, svW: int, svH: int) returns (wsv: int, hsv: int)
    requires w >= 0 && scale >= 1 && svW > 0 && svH > 0
    ensures 0 <= wsv <= w / scale && 0 <= hsv
    ensures hsv * svW == wsv * svH
    ensures var r := ReducedRatio(svW, svH);
            wsv == (w / scale) / r.0 * r.0 && hsv == (w / scale) / r.0 * r.1 && wsv + r.0 > w / scale
  {
    var ratiow, ratioh := Reduce(svW, svH);
    SameReduction(svW, svH, ratiow, ratioh);
    ghost var g := Gcd(svW, svH);
    DivShrinks(w, scale);
    wsv := CDiv(w, scale);
    ghost var k := wsv / ratiow;
    FloorMultiple(wsv, ratiow);
    wsv := CDiv(wsv, ratiow) * ratiow;
    ExactQuotient(k, ratiow, ratioh);
    hsv := CDiv(wsv * ratioh, ratiow);
    assert hsv == k * ratioh && k >= 0;
    SameRatio(k, ratiow, ratioh, g);
    NextStepOverflows(w / scale, ratiow, k);
  }

  /** Where `win_display_update` draws a self-view of `wsv` x `hsv` pixels
      when no explicit position is set: corners 1 and 5 top left, 2 and 6 top
      right, 3 and 7 bottom left, anything else bottom right, each
      `SelfviewMargin` pixels from the window edges it touches.  A self-view
      that leaves room for both margins lies inside the window. */
  function WindowSelfviewPos(corner: int, right: int, bottom: int, wsv: int, hsv: int): (p: (int, int))
    ensures p.0 == SelfviewMargin || p.0 + wsv + SelfviewMargin == right
    ensures p.1 == SelfviewMargin || p.1 + hsv + SelfviewMargin == bottom
    ensures (p.0 == SelfviewMargin && p.1 == SelfviewMargin) <== (corner == 1 || corner == 5)
    ensures 0 <= wsv && wsv + 2 * SelfviewMargin <= right ==> SelfviewMargin <= p.0 && p.0 + wsv + SelfviewMargin <= right
    ensures 0 <= hsv && hsv + 2 * SelfviewMargin <= bottom ==> SelfviewMargin <= p.1 && p.1 + hsv + SelfviewMargin <= bottom
  {
    if corner == 1 || corner == 4 + 1 then (SelfviewMargin, SelfviewMargin)
    else if corner == 2 || corner == 4 + 2 then (right - wsv - SelfviewMargin, SelfviewMargin)
    else if corner == 3 || corner == 4 + 3 then (SelfviewMargin, bottom - hsv - SelfviewMargin)
    else (right - wsv - SelfviewMargin, bottom - hsv - SelfviewMargin)
  }

  /** Corners 5 to 7 place the window self-view as corners 1 to 3 do. */
  lemma SelfviewCornerAlias(corner: int, right: int, bottom: int, wsv: int, hsv: int)
    requires 1 <= corner <= 3
    ensures WindowSelfviewPos(corner + 4, right, bottom, wsv, hsv) == WindowSelfviewPos(corner, right, bottom, wsv, hsv)
  { }

  /* ---------- the self-view rectangle inside the frame buffer ---------- */

  /** `MSRect`: a rectangle by its top-left corner and size. */
  datatype MSRect = MSRect(x: int, y: int, w: int, h: int)

  /** The local self-view rectangle `set_corner` computes for a frame of
      `fbW` x `fbH` and an integer scale factor: the frame divided by the
      scale factor and rounded down to even, in the corner the `corner`
      setting names (1 top left, 2 top right, 3 bottom left, anything else,
      -1 included, bottom right).  It always touches the frame's edges on the
      corner's two sides, and with a scale factor of at least 1 it lies
      inside the frame. */
  function LocalRect(corner: int, fbW: int, fbH: int, scale: int): (r: MSRect)
    requires scale != 0
    ensures r.w == ClearLowBit(CDiv(fbW, scale)) && r.h == ClearLowBit(CDiv(fbH, scale))
    ensures (r.x == 0 || r.x + r.w == fbW) && (r.y == 0 || r.y + r.h == fbH)
    ensures fbW >= 0 && fbH >= 0 && scale >= 1 ==>
              0 <= r.x && r.x + r.w <= fbW && 0 <= r.y && r.y + r.h <= fbH && 0 <= r.w && 0 <= r.h
  {
    var lw := ClearLowBit(CDiv(fbW, scale));
    var lh := ClearLowBit(CDiv(fbH, scale));
    assert fbW >= 0 && fbH >= 0 && scale >= 1 ==> 0 <= lw <= fbW && 0 <= lh <= fbH by {
      if fbW >= 0 && fbH >= 0 && scale >= 1 {
        DivShrinks(fbW, scale);
        DivShrinks(fbH, scale);
      }
    }
    if corner == 1 then MSRect(0, 0, lw, lh)
    else if corner == 2 then MSRect(fbW - lw, 0, lw, lh)
    else if corner == 3 then MSRect(0, fbH - lh, lw, lh)
    else MSRect(fbW - lw, fbH - lh, lw, lh)
  }

  /** The initial CIF frame is even and its self-view is 88 x 72 at the
      bottom right. */
  lemma CifGeometry()
    ensures ClearLowBit(CifW) == CifW && ClearLowBit(CifH) == CifH
    ensures LocalRect(0, CifW, CifH, DefaultScaleFactor) == MSRect(264, 216, 88, 72)
  {
    assert CDiv(CifW, DefaultScaleFactor) == 88 && CDiv(CifH, DefaultScaleFactor) == 72;
  }

  /* ---------- the filter state ---------- */

  /** An `MSQueue` of message blocks, as a filter input sees it. */
  class Queue {
    var items: seq<MsVideo.Mblk>

    constructor (items0: seq<MsVideo.Mblk>)
      ensures items == items0
    {
      items := items0;
    }
  }

  /** Width and height a block's video header announces, as
      `ms_yuv_buf_init_from_mblk` reads them. */
  ghost function FrameSize(m: MsVideo.Mblk): (int, int)
    reads m, m.data
    requires m.data.Length >= 4
  {
    MsVideo.ReadHeader(m.data[..])
  }

  /** What one `ms_display_poll_event` reports: its return value and
      whether the event is a resize. */
  datatype PollEvent = PollEvent(ret: int, resize: bool)

  /** Polls the resize loop of `video_out_process` consumes from `polls[i..]`
      once `i` have been consumed: it stops at 100 or at the first negative
      result, and a missing result counts as negative. */
  ghost function HandledFrom(polls: seq<PollEvent>, i: nat): (n: nat)
    requires i <= 100 && i <= |polls|
    ensures i <= n <= 100 && n <= |polls|
    ensures forall k :: i <= k < n ==> polls[k].ret >= 0
    ensures n < 100 ==> n == |polls| || polls[n].ret < 0
    decreases 100 - i
  {
    if i == 100 || i == |polls| || polls[i].ret < 0 then i else HandledFrom(polls, i + 1)
  }

  /** Number of polls the resize loop consumes. */
  ghost function Handled(polls: seq<PollEvent>): nat
  {
    HandledFrom(polls, 0)
  }

  /** The consumed count is the first stopping point. */
  lemma HandledIsFirstStop(polls: seq<PollEvent>, i: nat)
    requires i <= 100 && i <= |polls|
    requires forall k :: 0 <= k < i ==> polls[k].ret >= 0
    requires i == 100 || i == |polls| || polls[i].ret < 0
    ensures Handled(polls) == i
  {
  }

  /** A resize event among the first `n` polls. */
  ghost predicate ResizeAmong(polls: seq<PollEvent>, n: int)
  {
    exists k :: 0 <= k < n && k < |polls| && polls[k].ret > 0 && polls[k].resize
  }

  /** Whether a main frame of size `sz` makes autofit resize a `cur` frame:
      autofit is on, the size differs from the last one seen, and that size,
      clamped to QVGA when `qvgaLarger`, differs from the current frame. */
  predicate AutofitResizes(autofit: uint8, prevsize: (int, int), sz: (int, int), qvgaLarger: bool, cur: (int, int))
  {
    autofit != 0 && sz != prevsize && (if qvgaLarger then (QvgaW, QvgaH) else sz) != cur
  }

  /** Whether the filter is still ready after the resize polls of a tick. */
  ghost predicate PolledReady(hasDisplay: bool, ready: bool, polls: seq<PollEvent>)
  {
    if hasDisplay then ready && !ResizeAmong(polls, Handled(polls)) else ready
  }

  /** Whether the local self-view message exists after the self-view input
      of a tick with a display has been drained. */
  predicate LocalMsgAfterSelfview(had: bool, held: bool, corner: int, selfviewPlanes: bool)
  {
    if !held then had
    else if corner == -1 then false
    else if selfviewPlanes then had
    else true
  }

  /** The `VideoOut` filter state.  Frame sizes are in pixels; the display
      and the local self-view message are foreign objects of which only
      presence is kept. */
  class VideoOut {
    var fbufW: int
    var fbufH: int
    var fbufSelfviewW: int
    var fbufSelfviewH: int
    var localPicW: int
    var localPicH: int
    var localRect: MSRect
    var prevsize: (int, int)
    var corner: int
    var scaleFactor: int
    var backgroundColor: (int, int, int)
    var hasDisplay: bool
    var ownDisplay: bool
    var ready: bool
    var autofit: uint8
    var mirror: uint8
    var hasLocalMsg: bool

    /** The frame is even-sized and the self-view geometry is the one
        `set_corner` computes from the frame, the corner and the scale
        factor. */
    ghost predicate Valid()
      reads this
    {
      scaleFactor >= 1 && fbufW % 2 == 0 && fbufH % 2 == 0
      && localRect == LocalRect(corner, fbufW, fbufH, scaleFactor)
      && localPicW == localRect.w && localPicH == localRect.h
      && fbufSelfviewW == fbufW && fbufSelfviewH == fbufH
    }

    ghost function Frame(): (int, int, int)
      reads this
    {
      (fbufW, fbufH, scaleFactor)
    }

    ghost function Selfview(): (int, int, int, int, int, MSRect)
      reads this
    {
      (corner, fbufSelfviewW, fbufSelfviewH, localPicW, localPicH, localRect)
    }

    ghost function Links(): (bool, bool, bool)
      reads this
    {
      (hasDisplay, ownDisplay, hasLocalMsg)
    }

    ghost function Settings(): ((int, int), (int, int, int), uint8, uint8)
      reads this
    {
      (prevsize, backgroundColor, autofit, mirror)
    }

    /** `video_out_init`: a CIF frame with the self-view a quarter of it in
        the bottom-right corner, no display, not ready, autofit and
        mirroring off, a black background. */
    constructor ()
      ensures Valid()
      ensures fbufW == CifW && fbufH == CifH && corner == 0 && scaleFactor == DefaultScaleFactor
      ensures localRect == MSRect(264, 216, 88, 72)
      ensures prevsize == (0, 0) && backgroundColor == (0, 0, 0)
      ensures !hasDisplay && !ownDisplay && !ready && !hasLocalMsg && autofit == 0 && mirror == 0
    {
      fbufW, fbufH, fbufSelfviewW, fbufSelfviewH := 0, 0, 0, 0;
      localPicW, localPicH, localRect := 0, 0, MSRect(0, 0, 0, 0);
      prevsize := (0, 0);
      corner := 0;
      scaleFactor := DefaultScaleFactor;
      backgroundColor := (0, 0, 0);
      hasDisplay, ownDisplay, ready, hasLocalMsg := false, false, false, false;
      autofit, mirror := 0, 0;
      new;
      SetVsize(CifW, CifH);
      CifGeometry();
    }

    /** `set_corner`: record the corner and recompute the self-view
        rectangle and the self-view frame from the frame size. */
    method SetCorner(c: int)
      requires scaleFactor >= 1
      modifies this
      ensures Frame() == old(Frame()) && Links() == old(Links()) && Settings() == old(Settings()) && ready == old(ready)
      ensures corner == c
      ensures localRect == LocalRect(c, fbufW, fbufH, scaleFactor)
      ensures localPicW == localRect.w && localPicH == localRect.h
      ensures fbufSelfviewW == ClearLowBit(CDiv(fbufW, 1)) && fbufSelfviewH == ClearLowBit(CDiv(fbufH, 1))
      ensures fbufW % 2 == 0 && fbufH % 2 == 0 ==> Valid()
    {
      corner := c;
      localRect := LocalRect(c, fbufW, fbufH, scaleFactor);
      localPicW, localPicH := localRect.w, localRect.h;
      fbufSelfviewW := ClearLowBit(CDiv(fbufW, 1));
      fbufSelfviewH := ClearLowBit(CDiv(fbufH, 1));
    }

    /** `MS_VIDEO_OUT_GET_CORNER`: the corner last set. */
    method GetCorner() returns (c: int)
      ensures c == corner
    {
      c := corner;
    }

    /** `set_vsize` (and `MS_FILTER_SET_VIDEO_SIZE`): the frame takes the
        requested size rounded down to even, and the self-view geometry
        follows it. */
    method SetVsize(width: int, height: int)
      requires scaleFactor >= 1
      modifies this
      ensures Valid()
      ensures fbufW == ClearLowBit(width) && fbufH == ClearLowBit(height)
      ensures scaleFactor == old(scaleFactor) && corner == old(corner)
      ensures Links() == old(Links()) && Settings() == old(Settings()) && ready == old(ready)
    {
      fbufW := ClearLowBit(width);
      fbufH := ClearLowBit(height);
      SetCorner(corner);
    }

    /** `MS_VIDEO_OUT_SET_DISPLAY`: attach a display, or none. */
    method SetDisplay(present: bool)
      modifies this
      ensures hasDisplay == present
      ensures ownDisplay == old(ownDisplay) && hasLocalMsg == old(hasLocalMsg) && ready == old(ready)
      ensures Frame() == old(Frame()) && Selfview() == old(Selfview()) && Settings() == old(Settings())
    {
      hasDisplay := present;
    }

    /** `MS_VIDEO_OUT_AUTO_FIT`: the `int` argument is stored in a `bool_t`,
        that is truncated to its low byte. */
    method SetAutofit(arg: int)
      modifies this
      ensures autofit as int == arg % 0x100
      ensures autofit != 0 <==> arg % 0x100 != 0
      ensures prevsize == old(prevsize) && backgroundColor == old(backgroundColor) && mirror == old(mirror)
      ensures Frame() == old(Frame()) && Selfview() == old(Selfview()) && Links() == old(Links()) && ready == old(ready)
    {
      autofit := (arg % 0x100) as uint8;
    }

    /** `MS_VIDEO_OUT_ENABLE_MIRRORING`: changes only the mirror flag, which
        keeps the low byte of the argument. */
    method EnableMirroring(arg: int)
      modifies this
      ensures mirror as int == arg % 0x100
      ensures prevsize == old(prevsize) && backgroundColor == old(backgroundColor) && autofit == old(autofit)
      ensures Frame() == old(Frame()) && Selfview() == old(Selfview()) && Links() == old(Links()) && ready == old(ready)
    {
      mirror := (arg % 0x100) as uint8;
    }

    /** `MS_VIDEO_OUT_SET_BACKGROUND_COLOR`: store the three components. */
    method SetBackgroundColor(red: int, green: int, blue: int)
      modifies this
      ensures backgroundColor == (red, green, blue)
      ensures prevsize == old(prevsize) && autofit == old(autofit) && mirror == old(mirror)
      ensures Frame() == old(Frame()) && Selfview() == old(Selfview()) && Links() == old(Links()) && ready == old(ready)
    {
      backgroundColor := (red, green, blue);
    }

    /** `MS_VIDEO_OUT_GET_BACKGROUND_COLOR`: the three components last set. */
    method GetBackgroundColor() returns (red: int, green: int, blue: int)
      ensures (red, green, blue) == backgroundColor
    {
      red, green, blue := backgroundColor.0, backgroundColor.1, backgroundColor.2;
    }

    /** `video_out_prepare`: without a display and without a default display
        nothing happens; otherwise the (possibly new, then owned) display is
        initialised and dropped if that fails, the local self-view message is
        released, the geometry recomputed and the filter is ready. */
    method Prepare(defaultDesc: bool, initOk: bool)
      requires Valid()
      modifies this
      ensures Valid()
      ensures Frame() == old(Frame()) && Selfview() == old(Selfview()) && Settings() == old(Settings())
      ensures !old(hasDisplay) && !defaultDesc ==> Links() == old(Links()) && ready == old(ready)
      ensures old(hasDisplay) || defaultDesc ==>
                ready && hasDisplay == initOk && !hasLocalMsg && ownDisplay == (old(ownDisplay) || !old(hasDisplay))
    {
      if !hasDisplay {
        if !defaultDesc {
          return;
        }
        hasDisplay, ownDisplay := true, true;
      }
      if !initOk {
        hasDisplay := false;
      }
      hasLocalMsg := false;
      SetCorner(corner);
      ready := true;
    }

    /** `_video_out_handle_resizing`: poll the display once.  A resize event
        clears `ready` so the next tick prepares again; the result is 1 for
        any event, the poll's own result otherwise, and -1 without a
        display. */
    method HandleResizing(ev: PollEvent) returns (ret: int)
      modifies this
      ensures !hasDisplay ==> ret == -1
      ensures hasDisplay ==> ret == (if ev.ret > 0 then 1 else ev.ret)
      ensures ready == (old(ready) && !(hasDisplay && ev.ret > 0 && ev.resize))
      ensures Frame() == old(Frame()) && Selfview() == old(Selfview()) && Links() == old(Links()) && Settings() == old(Settings())
    {
      ret := -1;
      if hasDisplay {
        ret := ev.ret;
        if ret > 0 {
          if ev.resize && ready {
            ready := false;
          }
          return 1;
        }
      }
    }

    /** The resize loop at the start of `video_out_process`: up to 100 polls,
        stopping at the first negative result.  The filter stays ready
        exactly when it was and no consumed poll reported a resize. */
    method PollResizes(polls: seq<PollEvent>)
      modifies this
      ensures !hasDisplay ==> ready == old(ready)
      ensures hasDisplay ==> (ready <==> old(ready) && !ResizeAmong(polls, Handled(polls)))
      ensures Frame() == old(Frame()) && Selfview() == old(Selfview()) && Links() == old(Links()) && Settings() == old(Settings())
    {
      var i := 0;
      while i < 100
        invariant 0 <= i <= 100
        invariant Frame() == old(Frame()) && Selfview() == old(Selfview()) && Links() == old(Links()) && Settings() == old(Settings())
        invariant !hasDisplay ==> ready == old(ready) && i == 0
        invariant hasDisplay ==> i <= |polls| && forall k :: 0 <= k < i ==> polls[k].ret >= 0
        invariant hasDisplay ==> (ready <==> old(ready) && !ResizeAmong(polls, i))
      {
        var ev := if i < |polls| then polls[i] else PollEvent(-1, false);
        var ret := HandleResizing(ev);
        if ret < 0 {
          if hasDisplay {
            HandledIsFirstStop(polls, i);
          }
          return;
        }
        i := i + 1;
      }
      HandledIsFirstStop(polls, i);
    }

    /** The self-view input of `video_out_process` on a tick with a display:
        only the newest block matters, and the input is emptied.  With the
        self-view disabled (corner -1) the local message is released; when
        the display offers a self-view frame that frame is redrawn;
        otherwise the local message is allocated if needed and the main
        picture is redrawn. */
    method DrainSelfview(q1: Queue?, selfviewPlanes: bool) returns (update: bool, updateSelfview: bool)
      modifies this, q1
      ensures q1 != null ==> q1.items == []
      ensures updateSelfview == (q1 != null && old(q1.items) != [] && corner != -1 && selfviewPlanes)
      ensures update == (q1 != null && old(q1.items) != [] && corner != -1 && !selfviewPlanes)
      ensures hasLocalMsg == if q1 == null || old(q1.items) == [] then old(hasLocalMsg)
                             else if corner == -1 then false
                             else if selfviewPlanes then old(hasLocalMsg)
                             else true
      ensures hasDisplay == old(hasDisplay) && ownDisplay == old(ownDisplay) && ready == old(ready)
      ensures Frame() == old(Frame()) && Selfview() == old(Selfview()) && Settings() == old(Settings())
    {
      update, updateSelfview := false, false;
      if q1 != null && q1.items != [] {
        if corner == -1 {
          hasLocalMsg := false;
        } else if selfviewPlanes {
          updateSelfview := true;
        } else {
          if !hasLocalMsg {
            hasLocalMsg := true;
          }
          update := true;
        }
        q1.items := [];
      }
    }

    /** The main input of `video_out_process` on a tick with a display: the
        newest block alone is read and the input is emptied.  With autofit
        on and a size other than the last one seen, that size is recorded;
        clamped to QVGA when `qvgaLarger` (the outcome of
        `ms_video_size_greater_than(qvga, size)`), it becomes the new frame
        size if it differs from the current one, and the filter is prepared
        again.  `reinitOk` is the outcome of that second `ms_display_init`;
        it must succeed, since the code goes on to use the display. */
    method DrainMain(q0: Queue?, qvgaLarger: bool, reinitOk: bool) returns (update: bool)
      requires Valid() && hasDisplay
      requires q0 != null && q0.items != [] ==> q0.items[|q0.items| - 1].data.Length >= 4
      requires q0 != null && q0.items != [] &&
               AutofitResizes(autofit, prevsize, FrameSize(q0.items[|q0.items| - 1]), qvgaLarger, (fbufW, fbufH))
               ==> reinitOk
      modifies this, q0
      ensures Valid() && hasDisplay
      ensures q0 != null ==> q0.items == []
      ensures update == (q0 != null && old(q0.items) != [])
      ensures backgroundColor == old(backgroundColor) && autofit == old(autofit) && mirror == old(mirror)
      ensures corner == old(corner) && scaleFactor == old(scaleFactor) && ownDisplay == old(ownDisplay)
      ensures !update ==> Frame() == old(Frame()) && Selfview() == old(Selfview()) && Links() == old(Links())
                          && Settings() == old(Settings()) && ready == old(ready)
      ensures update ==>
                var sz := FrameSize(old(q0.items)[|old(q0.items)| - 1]);
                var target := if qvgaLarger then (QvgaW, QvgaH) else sz;
                var seen := old(autofit) != 0 && sz != old(prevsize);
                prevsize == (if seen then sz else old(prevsize))
                && if seen && target != (old(fbufW), old(fbufH)) then
                     fbufW == ClearLowBit(target.0) && fbufH == ClearLowBit(target.1)
                     && ready && !hasLocalMsg
                   else
                     Frame() == old(Frame()) && Selfview() == old(Selfview()) && Links() == old(Links()) && ready == old(ready)
    {
      update := false;
      if q0 != null && q0.items != [] {
        var inm := q0.items[|q0.items| - 1];
        var src := MsVideo.YuvBufInitFromMblk(inm);
        var cur := (fbufW, fbufH);
        var newsize := (src.w, src.h);
        if autofit != 0 && newsize != prevsize {
          prevsize := newsize;
          if qvgaLarger {
            newsize := (QvgaW, QvgaH);
          }
          if newsize != cur {
            SetVsize(newsize.0, newsize.1);
            Prepare(false, reinitOk);
          }
        }
        update := true;
        q0.items := [];
      }
    }

    /** `video_out_process`: poll for resizes, prepare when not ready, then
        drain both inputs.  `displayed` tells whether a display is there
        once the poll and the prepare are done: it was there and stayed
        ready, or its (re)initialisation succeeded.  Without one both inputs
        are flushed and nothing is drawn; with one the main picture is
        redrawn exactly when the main input or a self-view without its own
        planes held a frame, and the autofit rule of `DrainMain` applies to
        the newest main frame.  In every case both inputs end empty and the
        filter ends ready unless it had neither a display nor a default one
        to prepare. */
    method Process(polls: seq<PollEvent>, defaultDesc: bool, initOk: bool, selfviewPlanes: bool,
                   qvgaLarger: bool, reinitOk: bool, q0: Queue?, q1: Queue?)
      returns (update: bool, updateSelfview: bool, ghost displayed: bool)
      requires Valid()
      requires q0 == null || q0 != q1
      requires q0 != null && q0.items != [] ==> q0.items[|q0.items| - 1].data.Length >= 4
      requires q0 != null && q0.items != [] &&
               AutofitResizes(autofit, prevsize, FrameSize(q0.items[|q0.items| - 1]), qvgaLarger, (fbufW, fbufH))
               ==> reinitOk
      modifies this, q0, q1
      ensures Valid()
      ensures q0 != null ==> q0.items == []
      ensures q1 != null ==> q1.items == []
      ensures displayed == if old(hasDisplay) then PolledReady(true, old(ready), polls) || initOk
                           else !old(ready) && defaultDesc && initOk
      ensures !displayed ==> !update && !updateSelfview
      ensures displayed ==>
                (update <==> (q0 != null && old(q0.items) != [])
                             || (q1 != null && old(q1.items) != [] && corner != -1 && !selfviewPlanes))
      ensures displayed ==>
                (updateSelfview <==> q1 != null && old(q1.items) != [] && corner != -1 && selfviewPlanes)
      ensures ready == (old(hasDisplay) || old(ready) || defaultDesc)
      ensures hasDisplay == displayed
      ensures ownDisplay == (old(ownDisplay) || (!old(hasDisplay) && !old(ready) && defaultDesc))
      ensures var prepared := !PolledReady(old(hasDisplay), old(ready), polls) && (old(hasDisplay) || defaultDesc);
              var local := !prepared && old(hasLocalMsg);
              var mainHeld := q0 != null && old(q0.items) != [];
              var resized := mainHeld && AutofitResizes(old(autofit), old(prevsize), FrameSize(old(q0.items)[|old(q0.items)| - 1]),
                                                        qvgaLarger, (old(fbufW), old(fbufH)));
              hasLocalMsg == if !displayed then local
                             else !resized && LocalMsgAfterSelfview(local, q1 != null && old(q1.items) != [], corner, selfviewPlanes)
      ensures displayed && q0 != null && old(q0.items) != [] ==>
                var sz := FrameSize(old(q0.items)[|old(q0.items)| - 1]);
                var target := if qvgaLarger then (QvgaW, QvgaH) else sz;
                prevsize == (if old(autofit) != 0 then sz else old(prevsize))
                && if AutofitResizes(old(autofit), old(prevsize), sz, qvgaLarger, (old(fbufW), old(fbufH))) then
                     fbufW == ClearLowBit(target.0) && fbufH == ClearLowBit(target.1)
                   else fbufW == old(fbufW) && fbufH == old(fbufH)
      ensures !(displayed && q0 != null && old(q0.items) != []) ==>
                prevsize == old(prevsize) && fbufW == old(fbufW) && fbufH == old(fbufH)
      ensures backgroundColor == old(backgroundColor) && autofit == old(autofit) && mirror == old(mirror)
      ensures corner == old(corner) && scaleFactor == old(scaleFactor)
    {
      PollResizes(polls);
      if !ready {
        Prepare(defaultDesc, initOk);
      }
      if !hasDisplay {
        if q0 != null {
          q0.items := [];
        }
        if q1 != null {
          q1.items := [];
        }
        return false, false, false;
      }
      displayed := true;
      var fromSelfview;
      fromSelfview, updateSelfview := DrainSelfview(q1, selfviewPlanes);
      var fromMain := DrainMain(q0, qvgaLarger, reinitOk);
      update := fromSelfview || fromMain;
    }
  }
}
