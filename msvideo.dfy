/** The video-frame helpers of msvideo.c that are not plane algorithms:
    pixel-format tables, the YUV 4:2:0 layout of a picture, and the message
    block that carries a picture behind a width/height header. */
module MsVideo {
  import opened CArith
  import opened Planes
  import opened MsVideoPlanes

  // ------------------------------------------------------------- formats

  /** The `MSPixFmt` values msvideo.c names. */
  datatype PixFmt =
    | Yuv420p | Yuyv | Rgb24 | Rgb24Rev | Mjpeg | Uyvy | Yuy2 | Rgba32 | Rgb565
    | PixFmtUnknown

  /** The ffmpeg `PIX_FMT_*` codes the conversion tables use; any other code
      (and `-1`, the "not supported" answer) is `FfOther`. */
  datatype FfmpegPixFmt =
    | FfRgba | FfRgb24 | FfBgr24 | FfYuv420p | FfYuyv422 | FfUyvy422 | FfRgb565
    | FfOther(code: int)

  /** `ms_pix_fmt_to_ffmpeg`: `MS_YUY2` shares `PIX_FMT_YUYV422` with
      `MS_YUYV`; formats ffmpeg has no code for answer -1. */
  function PixFmtToFfmpeg(f: PixFmt): (r: FfmpegPixFmt)
    ensures r.FfOther? <==> f == Mjpeg || f == PixFmtUnknown
    ensures r.FfOther? ==> r.code == -1
    ensures (f == Yuy2 || f == Yuyv) <==> r == FfYuyv422
  {
    match f
    case Rgba32 => FfRgba
    case Rgb24 => FfRgb24
    case Rgb24Rev => FfBgr24
    case Yuv420p => FfYuv420p
    case Yuyv => FfYuyv422
    case Uyvy => FfUyvy422
    case Yuy2 => FfYuyv422
    case Rgb565 => FfRgb565
    case _ => FfOther(-1)
  }

  /** `ffmpeg_pix_fmt_to_ms`: an unknown code answers `MS_YUV420P`. */
  function FfmpegToPixFmt(f: FfmpegPixFmt): (r: PixFmt)
    ensures f.FfOther? ==> r == Yuv420p
    ensures r != Yuy2 && r != Mjpeg && r != PixFmtUnknown
  {
    match f
    case FfRgb24 => Rgb24
    case FfBgr24 => Rgb24Rev
    case FfYuv420p => Yuv420p
    case FfYuyv422 => Yuyv
    case FfUyvy422 => Uyvy
    case FfRgba => Rgba32
    case FfRgb565 => Rgb565
    case FfOther(_) => Yuv420p
  }

  /** The two tables are inverse on every format ffmpeg knows, except that
      `MS_YUY2` comes back as `MS_YUYV`. */
  lemma FfmpegRoundTrip(f: PixFmt, g: FfmpegPixFmt)
    ensures f != Mjpeg && f != PixFmtUnknown ==>
              FfmpegToPixFmt(PixFmtToFfmpeg(f)) == if f == Yuy2 then Yuyv else f
    ensures !g.FfOther? ==> PixFmtToFfmpeg(FfmpegToPixFmt(g)) == g
  {
  }

  /** `MAKEFOURCC(a, b, c, d)`: the four characters packed little-endian
      into a 32-bit code, `a` in the lowest byte. */
  function MakeFourcc(a: char, b: char, c: char, d: char): (r: int)
    requires a < 256 as char && b < 256 as char && c < 256 as char && d < 256 as char
    ensures 0 <= r < 0x1_0000_0000
    ensures r % 0x100 == a as int && r / 0x100 % 0x100 == b as int
    ensures r / 0x1_0000 % 0x100 == c as int && r / 0x100_0000 == d as int
  {
    var a, b, c, d := a as int, b as int, c as int, d as int;
    var r := d * 0x100_0000 + c * 0x1_0000 + b * 0x100 + a;
    DivModUnique(r, 0x100, d * 0x1_0000 + c * 0x100 + b, a);
    DivModUnique(d * 0x1_0000 + c * 0x100 + b, 0x100, d * 0x100 + c, b);
    DivModUnique(r, 0x1_0000, d * 0x100 + c, b * 0x100 + a);
    DivModUnique(d * 0x100 + c, 0x100, d, c);
    DivModUnique(r, 0x100_0000, d, c * 0x1_0000 + b * 0x100 + a);
    r
  }

  /** The code each format is recognised by, when it has one. */
  function FourccOf(f: PixFmt): Option<int>
  {
    match f
    case Yuv420p => Some(MakeFourcc('I', '4', '2', '0'))
    case Yuy2 => Some(MakeFourcc('Y', 'U', 'Y', '2'))
    case Yuyv => Some(MakeFourcc('Y', 'U', 'Y', 'V'))
    case Uyvy => Some(MakeFourcc('U', 'Y', 'V', 'Y'))
    case Mjpeg => Some(MakeFourcc('M', 'J', 'P', 'G'))
    case Rgb24 => Some(0)
    case _ => None
  }

  /** `ms_fourcc_to_pix_fmt`: `0` is `BI_RGB`, Windows' code for RGB24. */
  function FourccToPixFmt(fourcc: int): (r: PixFmt)
    ensures r == PixFmtUnknown || FourccOf(r) == Some(fourcc)
  {
    if fourcc == MakeFourcc('I', '4', '2', '0') then Yuv420p
    else if fourcc == MakeFourcc('Y', 'U', 'Y', '2') then Yuy2
    else if fourcc == MakeFourcc('Y', 'U', 'Y', 'V') then Yuyv
    else if fourcc == MakeFourcc('U', 'Y', 'V', 'Y') then Uyvy
    else if fourcc == MakeFourcc('M', 'J', 'P', 'G') then Mjpeg
    else if fourcc == 0 then Rgb24
    else PixFmtUnknown
  }

  /** Every format with a code is recognised by exactly that code; every
      other code is unknown. */
  lemma FourccRecognised(f: PixFmt, fourcc: int)
    ensures FourccOf(f) == Some(fourcc) ==> FourccToPixFmt(fourcc) == f
    ensures FourccToPixFmt(fourcc) == PixFmtUnknown <==> forall g :: FourccOf(g) != Some(fourcc)
  {
    if FourccToPixFmt(fourcc) == PixFmtUnknown {
      forall g
        ensures FourccOf(g) != Some(fourcc)
      {
      }
    } else {
      assert FourccOf(FourccToPixFmt(fourcc)) == Some(fourcc);
    }
  }

  // ------------------------------------------------------------- pictures

  /** `YuvBuf` / `MSPicture`: four plane pointers (offsets into the buffer
      that holds the picture, `None` for NULL) and four line sizes. */
  datatype YuvBuf = YuvBuf(w: int, h: int, planes: seq<Option<int>>, strides: seq<int>)
  {
    predicate HasYuvPlanes()
    {
      |planes| == 4 && |strides| == 4 && planes[0].Some? && planes[1].Some? && planes[2].Some?
    }

    /** The window plane `i` covers: the whole picture for luma, half the
        width and half the height for the two chroma planes. */
    function Plane(i: int): Rect
      requires HasYuvPlanes() && 0 <= i < 3
    {
      if i == 0 then Rect(planes[0].value, strides[0], h, w)
      else Rect(planes[i].value, strides[i], CDiv(h, 2), CDiv(w, 2))
    }
  }

  /** `yuv_buf_init`: lay out a `w` x `h` YUV 4:2:0 picture from `ptr`. */
  function YuvBufInit(w: int, h: int, ptr: int): (b: YuvBuf)
    ensures b.HasYuvPlanes() && b.w == w && b.h == h && b.planes[3] == None && b.strides[3] == 0
  {
    var ysize := w * h;
    var usize := CDiv(ysize, 4);
    YuvBuf(w, h, [Some(ptr), Some(ptr + ysize), Some(ptr + ysize + usize), None],
           [w, CDiv(w, 2), CDiv(w, 2), 0])
  }

  lemma QuarterOfProduct(w: int, h: int)
    requires 0 <= w && 0 <= h
    ensures (h / 2) * (w / 2) <= (w * h) / 4
  {
    var a, b := w / 2, h / 2;
    assert 2 * a <= w && 2 * b <= h;
    MulMonotone(2 * b, h, 2 * a);
    MulMonotone(2 * a, w, h);
    assert 4 * (a * b) <= w * h;
  }

  /** The three planes of `yuv_buf_init` follow each other without
      overlapping, and together fit in the `w * h * 3 / 2` bytes that
      `ms_yuv_buf_alloc` reserves for the picture. */
  lemma YuvBufInitLayout(w: int, h: int, ptr: int)
    requires 0 <= w && 0 <= h && 0 <= ptr
    ensures var b := YuvBufInit(w, h, ptr);
            b.Plane(0).FitsIn(b.planes[1].value) && b.Plane(1).FitsIn(b.planes[2].value)
            && b.Plane(2).FitsIn(ptr + (w * h * 3) / 2)
            && b.planes[1].value <= b.planes[2].value
  {
    var b := YuvBufInit(w, h, ptr);
    assert b.Plane(0).FitsIn(b.planes[1].value) by {
      MulMonotone(0, w, h);
      if h > 0 {
        assert (h - 1) * w + w == w * h;
      }
    }
    assert b.Plane(1).FitsIn(b.planes[2].value) && b.planes[1].value <= b.planes[2].value by {
      MulMonotone(0, w, h);
      QuarterOfProduct(w, h);
      if h / 2 > 0 {
        assert (h / 2 - 1) * (w / 2) + w / 2 == (h / 2) * (w / 2);
      }
    }
    assert b.Plane(2).FitsIn(ptr + (w * h * 3) / 2) by {
      MulMonotone(0, w, h);
      QuarterOfProduct(w, h);
      if h / 2 > 0 {
        assert (h / 2 - 1) * (w / 2) + w / 2 == (h / 2) * (w / 2);
      }
      assert (w * h * 3) / 2 == w * h + (w * h) / 2;
      assert 2 * ((w * h) / 4) <= (w * h) / 2;
    }
  }

  // ------------------------------------------------------ message blocks

  /** An `mblk_t`: a data buffer (`b_datap->db_base` is index 0), the read
      and write cursors, and the continuation block. */
  class Mblk {
    var data: array<uint8>
    var rptr: int
    var wptr: int
    var cont: Mblk?

    /** `allocb(size, 0)`: a fresh block with both cursors at the base. */
    constructor Allocb(size: nat)
      ensures fresh(data) && data.Length == size
      ensures rptr == 0 && wptr == 0 && cont == null
    {
      data := new uint8[size];
      rptr, wptr, cont := 0, 0, null;
    }
  }

  /** `sizeof(mblk_video_header)`: two `uint16_t` and three `int`. */
  const HeaderSize := 16

  /** Slack `ms_yuv_buf_alloc` adds after the picture. */
  const Padding := 16

  /** The first four header bytes: `w` and `h` stored as `uint16_t`
      (reduced modulo 2^16), low byte first. */
  function HeaderBytes(w: int, h: int): (s: seq<uint8>)
    ensures |s| == 4
  {
    var w16, h16 := w % 0x1_0000, h % 0x1_0000;
    [(w16 % 0x100) as uint8, (w16 / 0x100) as uint8, (h16 % 0x100) as uint8, (h16 / 0x100) as uint8]
  }

  /** The header's `w` and `h` fields, read from the base of the buffer. */
  function ReadHeader(s: seq<uint8>): (wh: (int, int))
    requires |s| >= 4
    ensures 0 <= wh.0 < 0x1_0000 && 0 <= wh.1 < 0x1_0000
  {
    (s[0] as int + 0x100 * s[1] as int, s[2] as int + 0x100 * s[3] as int)
  }

  /** Reading the header back gives the sizes that were written, truncated
      to 16 bits, whatever follows them. */
  lemma HeaderRoundTrip(w: int, h: int, rest: seq<uint8>)
    ensures ReadHeader(HeaderBytes(w, h) + rest) == (w % 0x1_0000, h % 0x1_0000)
    ensures 0 <= w < 0x1_0000 && 0 <= h < 0x1_0000 ==> ReadHeader(HeaderBytes(w, h) + rest) == (w, h)
  {
    var s := HeaderBytes(w, h) + rest;
    var w16, h16 := w % 0x1_0000, h % 0x1_0000;
    assert s[0] as int + 0x100 * s[1] as int == w16 % 0x100 + 0x100 * (w16 / 0x100);
    assert s[2] as int + 0x100 * s[3] as int == h16 % 0x100 + 0x100 * (h16 / 0x100);
  }

  /** `ms_yuv_buf_alloc`: a block holding the header, room for a `w` x `h`
      YUV 4:2:0 picture and the padding; the read cursor is past the header
      and the write cursor past the picture. */
  method YuvBufAlloc(w: int, h: int) returns (buf: YuvBuf, msg: Mblk)
    requires 0 <= w && 0 <= h
    ensures fresh(msg) && fresh(msg.data)
    ensures msg.data.Length == HeaderSize + (w * h * 3) / 2 + Padding
    ensures msg.data[..4] == HeaderBytes(w, h)
    ensures msg.rptr == HeaderSize && msg.wptr - msg.rptr == (w * h * 3) / 2 && msg.cont == null
    ensures buf == YuvBufInit(w, h, msg.rptr)
  {
    MulMonotone(0, w, h);
    var size := (w * h * 3) / 2;
    msg := new Mblk.Allocb(HeaderSize + size + Padding);
    var hdr := HeaderBytes(w, h);
    msg.data[msg.wptr] := hdr[0];
    msg.data[msg.wptr + 1] := hdr[1];
    msg.data[msg.wptr + 2] := hdr[2];
    msg.data[msg.wptr + 3] := hdr[3];
    msg.rptr := msg.rptr + HeaderSize;
    msg.wptr := msg.wptr + HeaderSize;
    buf := YuvBufInit(w, h, msg.wptr);
    msg.wptr := msg.wptr + size;
  }

  /** `ms_yuv_buf_init_from_mblk`: the sizes come from the header; the
      picture starts at the read cursor, or at the continuation's when the
      picture was appended as a second block. */
  function YuvBufInitFromMblk(m: Mblk): (b: YuvBuf)
    reads m, m.data, m.cont
    requires m.data.Length >= 4
    ensures b.HasYuvPlanes()
    ensures (b.w, b.h) == ReadHeader(m.data[..])
  {
    var wh := ReadHeader(m.data[..]);
    if m.cont == null then YuvBufInit(wh.0, wh.1, m.rptr)
    else YuvBufInit(wh.0, wh.1, m.cont.rptr)
  }

  /** A block laid out by `ms_yuv_buf_alloc` for sizes below 2^16 reads back
      as the picture the allocation described. */
  lemma AllocInitRoundTrip(m: Mblk, w: int, h: int)
    requires 0 <= w < 0x1_0000 && 0 <= h < 0x1_0000
    requires m.data.Length >= 4 && m.data[..4] == HeaderBytes(w, h) && m.cont == null
    ensures YuvBufInitFromMblk(m) == YuvBufInit(w, h, m.rptr)
  {
    assert m.data[..] == HeaderBytes(w, h) + m.data[4..];
    HeaderRoundTrip(w, h, m.data[4..]);
  }

  /** `ms_yuv_buf_alloc_from_buffer`: a header-only block whose continuation
      is the caller's picture block. */
  method YuvBufAllocFromBuffer(w: int, h: int, buffer: Mblk) returns (msg: Mblk)
    ensures fresh(msg) && fresh(msg.data) && msg.data.Length == HeaderSize
    ensures msg.data[..4] == HeaderBytes(w, h)
    ensures msg.rptr == HeaderSize && msg.wptr == HeaderSize && msg.cont == buffer
  {
    msg := new Mblk.Allocb(HeaderSize);
    var hdr := HeaderBytes(w, h);
    msg.data[msg.wptr] := hdr[0];
    msg.data[msg.wptr + 1] := hdr[1];
    msg.data[msg.wptr + 2] := hdr[2];
    msg.data[msg.wptr + 3] := hdr[3];
    msg.rptr := msg.rptr + HeaderSize;
    msg.wptr := msg.wptr + HeaderSize;
    msg.cont := buffer;
  }

  /** A header block made by `ms_yuv_buf_alloc_from_buffer` for sizes below
      2^16 reads back as that picture laid out from the appended block's
      read cursor. */
  lemma AllocFromBufferRoundTrip(m: Mblk, w: int, h: int)
    requires 0 <= w < 0x1_0000 && 0 <= h < 0x1_0000
    requires m.data.Length >= 4 && m.data[..4] == HeaderBytes(w, h) && m.cont != null
    ensures YuvBufInitFromMblk(m) == YuvBufInit(w, h, m.cont.rptr)
  {
    assert m.data[..] == HeaderBytes(w, h) + m.data[4..];
    HeaderRoundTrip(w, h, m.data[4..]);
  }

  /** `ms_yuv_buf_init_from_mblk_with_size`: skip a potential header block. */
  function YuvBufInitFromMblkWithSize(m: Mblk, w: int, h: int): (b: YuvBuf)
    reads m, m.cont
    ensures b.HasYuvPlanes() && b.w == w && b.h == h
    ensures b.planes[0] == Some(if m.cont != null then m.cont.rptr else m.rptr)
  {
    var p := if m.cont != null then m.cont else m;
    YuvBufInit(w, h, p.rptr)
  }

  /** Given the sizes its header holds, the size-given reader skips the
      header block exactly as the header-reading one does: on a block from
      `ms_yuv_buf_alloc` or `ms_yuv_buf_alloc_from_buffer` with sizes below
      2^16 both give the same picture. */
  lemma WithSizeAgreesWithHeader(m: Mblk, w: int, h: int)
    requires 0 <= w < 0x1_0000 && 0 <= h < 0x1_0000
    requires m.data.Length >= 4 && m.data[..4] == HeaderBytes(w, h)
    ensures YuvBufInitFromMblkWithSize(m, w, h) == YuvBufInitFromMblk(m)
  {
    if m.cont == null {
      AllocInitRoundTrip(m, w, h);
    } else {
      AllocFromBufferRoundTrip(m, w, h);
    }
  }

  /** `ms_picture_init_from_mblk_with_size`: returns the status code and the
      picture, which keeps its old value when the format is not supported. */
  function PictureInitFromMblkWithSize(buf: YuvBuf, m: Mblk, fmt: PixFmt, w: int, h: int): (r: (int, YuvBuf))
    reads m, m.cont, if m.cont != null then m.cont.cont else null
    ensures r.0 == 0 <==> fmt in {Yuv420p, Yuy2, Yuyv, Uyvy, Rgb24, Rgb24Rev}
    ensures r.0 != 0 ==> r.0 == -1 && r.1 == buf
    ensures r.0 == 0 ==> r.1.w == w && r.1.h == h && |r.1.planes| == 4 && |r.1.strides| == 4
    ensures fmt in {Yuy2, Yuyv, Uyvy} ==> r.1.strides == [w * 2, 0, 0, 0]
    ensures fmt in {Rgb24, Rgb24Rev} ==> r.1.strides == [w * 3, 0, 0, 0]
    ensures fmt in {Yuy2, Yuyv, Uyvy, Rgb24, Rgb24Rev} ==>
              r.1.planes == [Some(if m.cont != null then m.cont.rptr else m.rptr), None, None, None]
  {
    var p := if m.cont != null then m.cont else m;
    match fmt
    case Yuv420p => (0, YuvBufInitFromMblkWithSize(p, w, h))
    case Yuy2 => (0, YuvBuf(w, h, [Some(p.rptr), None, None, None], [w * 2, 0, 0, 0]))
    case Yuyv => (0, YuvBuf(w, h, [Some(p.rptr), None, None, None], [w * 2, 0, 0, 0]))
    case Uyvy => (0, YuvBuf(w, h, [Some(p.rptr), None, None, None], [w * 2, 0, 0, 0]))
    case Rgb24 => (0, YuvBuf(w, h, [Some(p.rptr), None, None, None], [w * 3, 0, 0, 0]))
    case Rgb24Rev => (0, YuvBuf(w, h, [Some(p.rptr), None, None, None], [w * 3, 0, 0, 0]))
    case _ => (-1, buf)
  }

  /** For YUV 4:2:0 the header block is skipped twice: once here and once
      more inside `ms_yuv_buf_init_from_mblk_with_size`, so a chain of three
      blocks takes its picture from the third. */
  lemma PictureInitSkipsTwice(buf: YuvBuf, m: Mblk, w: int, h: int)
    requires m.cont != null
    ensures PictureInitFromMblkWithSize(buf, m, Yuv420p, w, h).1
            == YuvBufInit(w, h, if m.cont.cont != null then m.cont.cont.rptr else m.cont.rptr)
  {
  }

  // ------------------------------------------------------- whole pictures

  /** `ms_yuv_buf_copy`: copy the `roiW` x `roiH` region of the luma plane
      and the half-size region of both chroma planes.  All source planes lie
      in `src` and all destination planes in `dst`.  The halving is C's
      division; the regions' sizes are not negative, where it agrees with
      Dafny's. */
  method YuvBufCopy(src: array<uint8>, srcPlanes: seq<int>, srcStrides: seq<int>,
                    dst: array<uint8>, dstPlanes: seq<int>, dstStrides: seq<int>,
                    roiW: int, roiH: int)
    requires src != dst
    requires |srcPlanes| >= 3 && |srcStrides| >= 3 && |dstPlanes| >= 3 && |dstStrides| >= 3
    requires forall i :: 0 <= i < 3 ==>
               Rect(srcPlanes[i], srcStrides[i], RoiH(roiH, i), RoiW(roiW, i)).FitsIn(src.Length)
    requires forall i :: 0 <= i < 3 ==>
               Rect(dstPlanes[i], dstStrides[i], RoiH(roiH, i), RoiW(roiW, i)).FitsIn(dst.Length)
    modifies dst
    ensures dst[..] == CopiedPlanes(old(dst[..]), src[..], srcPlanes, srcStrides, dstPlanes, dstStrides, roiW, roiH, 3)
  {
    ghost var d0 := dst[..];
    PlaneCopy(src, srcPlanes[0], srcStrides[0], dst, dstPlanes[0], dstStrides[0], roiW, roiH);
    var w2, h2 := roiW / 2, roiH / 2;
    PlaneCopy(src, srcPlanes[1], srcStrides[1], dst, dstPlanes[1], dstStrides[1], w2, h2);
    PlaneCopy(src, srcPlanes[2], srcStrides[2], dst, dstPlanes[2], dstStrides[2], w2, h2);
  }

  /** Region width and height for plane `i`: halved for the chroma planes. */
  function RoiW(roiW: int, i: int): int { if i == 0 then roiW else CDiv(roiW, 2) }

  function RoiH(roiH: int, i: int): int { if i == 0 then roiH else CDiv(roiH, 2) }

  /** The destination after copying planes `0 .. n - 1` in order. */
  ghost function CopiedPlanes(d: seq<uint8>, src: seq<uint8>, srcPlanes: seq<int>, srcStrides: seq<int>,
                              dstPlanes: seq<int>, dstStrides: seq<int>, roiW: int, roiH: int, n: int): (t: seq<uint8>)
    requires 0 <= n <= 3 && |srcPlanes| >= 3 && |srcStrides| >= 3 && |dstPlanes| >= 3 && |dstStrides| >= 3
    requires forall i :: 0 <= i < 3 ==>
               Rect(srcPlanes[i], srcStrides[i], RoiH(roiH, i), RoiW(roiW, i)).FitsIn(|src|)
    requires forall i :: 0 <= i < 3 ==>
               Rect(dstPlanes[i], dstStrides[i], RoiH(roiH, i), RoiW(roiW, i)).FitsIn(|d|)
    ensures |t| == |d|
    decreases n
  {
    if n == 0 then d
    else
      var prev := CopiedPlanes(d, src, srcPlanes, srcStrides, dstPlanes, dstStrides, roiW, roiH, n - 1);
      Copied(prev, src,
             Rect(dstPlanes[n - 1], dstStrides[n - 1], RoiH(roiH, n - 1), RoiW(roiW, n - 1)),
             Rect(srcPlanes[n - 1], srcStrides[n - 1], RoiH(roiH, n - 1), RoiW(roiW, n - 1)))
  }

  /** The three planes lie inside a buffer of `len` bytes. */
  predicate PlanesFit(b: YuvBuf, len: int)
  {
    b.HasYuvPlanes() && b.Plane(0).FitsIn(len) && b.Plane(1).FitsIn(len) && b.Plane(2).FitsIn(len)
  }

  /** The three planes follow each other in the buffer: luma ends before the
      first chroma plane starts, which ends before the second starts. */
  predicate Stacked(b: YuvBuf)
  {
    b.HasYuvPlanes() && b.Plane(0).FitsIn(b.planes[1].value) && b.Plane(1).FitsIn(b.planes[2].value)
  }

  /** The picture after plane 0, then plane 1, then plane 2 is mirrored. */
  ghost function MirroredPlanes(a: seq<uint8>, b: YuvBuf, m: MirrorType): (t: seq<uint8>)
    requires PlanesFit(b, |a|)
    ensures |t| == |a|
  {
    Mirrored(Mirrored(Mirrored(a, b.Plane(0), m), b.Plane(1), m), b.Plane(2), m)
  }

  /** `ms_yuv_buf_mirrors`: mirror the luma plane and both half-size chroma
      planes in place. */
  method YuvBufMirrors(a: array<uint8>, buf: YuvBuf, m: MirrorType)
    requires PlanesFit(buf, a.Length)
    modifies a
    ensures a[..] == MirroredPlanes(old(a[..]), buf, m)
  {
    PlaneMirror(m, a, buf.planes[0].value, buf.strides[0], buf.w, buf.h);
    PlaneMirror(m, a, buf.planes[1].value, buf.strides[1], CDiv(buf.w, 2), CDiv(buf.h, 2));
    PlaneMirror(m, a, buf.planes[2].value, buf.strides[2], CDiv(buf.w, 2), CDiv(buf.h, 2));
  }

  /** `ms_yuv_buf_mirror`: the horizontal mirror of the whole picture. */
  method YuvBufMirror(a: array<uint8>, buf: YuvBuf)
    requires PlanesFit(buf, a.Length)
    modifies a
    ensures a[..] == MirroredPlanes(old(a[..]), buf, HorizontalMirror)
  {
    YuvBufMirrors(a, buf, HorizontalMirror);
  }

  /** Which plane of a stacked picture a buffer index belongs to, if any. */
  lemma StackedPlanes(b: YuvBuf, k: int)
    requires Stacked(b)
    ensures b.Plane(0).Contains(k) ==> k < b.planes[1].value
    ensures b.Plane(1).Contains(k) ==> b.planes[1].value <= k < b.planes[2].value
    ensures b.Plane(2).Contains(k) ==> b.planes[2].value <= k
  {
    if b.Plane(0).Contains(k) {
      ContainsInBounds(b.Plane(0), k, b.planes[1].value);
    }
    if b.Plane(1).Contains(k) {
      ContainsInBounds(b.Plane(1), k, b.planes[2].value);
    }
  }

  /** In a stacked picture a byte of plane `i` takes its partner in plane
      `i`, which no other plane's mirror touches. */
  lemma MirroredPlanesCell(a: seq<uint8>, b: YuvBuf, m: MirrorType, i: int, k: int)
    requires Stacked(b) && PlanesFit(b, |a|) && 0 <= k < |a| && 0 <= i < 3 && b.Plane(i).Contains(k)
    ensures b.Plane(i).Contains(Source(b.Plane(i), m, k)) && 0 <= Source(b.Plane(i), m, k) < |a|
    ensures MirroredPlanes(a, b, m)[k] == a[Source(b.Plane(i), m, k)]
  {
    var p0, p1, p2 := b.Plane(0), b.Plane(1), b.Plane(2);
    var a0 := Mirrored(a, p0, m);
    var a1 := Mirrored(a0, p1, m);
    var s := Source(b.Plane(i), m, k);
    MirroredAt(a, b.Plane(i), m, k);
    StackedPlanes(b, k);
    StackedPlanes(b, s);
    MirroredAt(a1, p2, m, k);
    MirroredAt(a0, p1, m, k);
    MirroredAt(a, p0, m, k);
    if i == 2 {
      MirroredAt(a0, p1, m, s);
      MirroredAt(a, p0, m, s);
    } else if i == 1 {
      MirroredAt(a, p0, m, s);
    }
  }

  /** Bytes outside the three planes are kept. */
  lemma MirroredPlanesOutside(a: seq<uint8>, b: YuvBuf, m: MirrorType, k: int)
    requires PlanesFit(b, |a|) && 0 <= k < |a|
    requires !b.Plane(0).Contains(k) && !b.Plane(1).Contains(k) && !b.Plane(2).Contains(k)
    ensures MirroredPlanes(a, b, m)[k] == a[k]
  {
    var a0 := Mirrored(a, b.Plane(0), m);
    MirroredAt(Mirrored(a0, b.Plane(1), m), b.Plane(2), m, k);
    MirroredAt(a0, b.Plane(1), m, k);
    MirroredAt(a, b.Plane(0), m, k);
  }

  /** Mirroring a stacked picture twice restores it. */
  lemma MirroredPlanesTwice(a: seq<uint8>, b: YuvBuf, m: MirrorType)
    requires Stacked(b) && PlanesFit(b, |a|)
    ensures MirroredPlanes(MirroredPlanes(a, b, m), b, m) == a
  {
    var once := MirroredPlanes(a, b, m);
    forall k | 0 <= k < |a|
      ensures MirroredPlanes(once, b, m)[k] == a[k]
    {
      var i := if b.Plane(0).Contains(k) then 0 else if b.Plane(1).Contains(k) then 1 else 2;
      if b.Plane(i).Contains(k) {
        MirroredPlanesCell(once, b, m, i, k);
        MirroredPlanesCell(a, b, m, i, Source(b.Plane(i), m, k));
        SourceTwice(b.Plane(i), m, k);
      } else {
        MirroredPlanesOutside(once, b, m, k);
        MirroredPlanesOutside(a, b, m, k);
      }
    }
  }
}
