# Linphone video buffers, video output and the oSIP list in Dafny

This project models three sequential pieces of the Linphone source tree and
proves what each promises.

- **The oSIP positional list** (`osip_list.c`). A singly linked list with an
  element counter supports:
  - insertion, lookup and removal by index;
  - an end-of-list test;
  - a free-all and a clone helper;
  - a cursor that can unlink the current node.

  It is modelled as the class `OsipList.List`. Its real `Node` objects are
  relinked in place, and a ghost sequence of nodes and one of elements track
  them. Every operation is proved against `Insert`/`Delete` on that sequence,
  with the oSIP error codes.
- **Video frame helpers** (`msvideo.c`):
  - the YUV 4:2:0 plane layout, and the message block that carries a picture
    behind a width/height header;
  - strided plane copy;
  - in-place horizontal, vertical and central mirroring of byte planes;
  - RGB24 pixel mirroring and the 180° RGB24 copy;
  - the FOURCC and ffmpeg pixel-format tables.

  The byte algorithms are methods over `array<uint8>`. Each is proved equal to
  a specification function (`Copied`, `Mirrored`, `PixelsMirrored`). The
  properties are proved about those functions: cell by cell, bytes outside
  the window kept, and involution.
- **The video output filter** (`videoout.c`):
  - the integer geometry: `gcd`/`reduce`, the aspect-preserving fit, the
    self-view size and corner placement, and the even-rounded frame and
    self-view rectangle of `set_vsize`/`set_corner`;
  - its state, as the class `VideoOut.VideoOut`: init, setters, getters,
    prepare, resize polling, and the per-tick rule that only the newest frame
    of each input is used and both inputs are emptied.

C's truncating `/` and `%` and the `& ~0x1` rounding are spelled out in
`CArith`. `Planes` describes a width x height window with a line stride in a
flat byte buffer.

Parameters of the model stand for the outside world:
- an allocation that may fail (`allocOk`);
- the default display being built in and `ms_display_init` succeeding
  (`defaultDesc`, `initOk`), with the second init of an autofit resize a
  separate outcome (`reinitOk`);
- the display events polled (`polls`);
- whether the display offers self-view planes (`selfviewPlanes`);
- the result of `ms_video_size_greater_than` (`qvgaLarger`).

The input queues are sequences of message blocks. The constants come from
headers this model does not include:
- CIF is 352x288 and QVGA is 320x240;
- the oSIP codes are `OSIP_SUCCESS` 0, `OSIP_UNDEFINED_ERROR` -1,
  `OSIP_BADPARAMETER` -2 and `OSIP_NOMEM` -4;
- `bool_t` is an unsigned char.

`ms_picture_init_from_mblk_with_size` skips the header block once itself and
once more through `ms_yuv_buf_init_from_mblk_with_size`. The model follows
that code rather than the single skip a reader would expect
(`PictureInitSkipsTwice`).

## Model

| member | source | states |
|---|---|---|
| CArith.CDiv | trunk/mediastreamer2/src/msvideo.c:266-267 | C's `/` truncates toward zero, so it agrees with floor division for a nonnegative dividend and a positive divisor |
| CArith.CRem | trunk/mediastreamer2/src/videoout.c:134-141 | C's `%`: `a == CDiv(a, b) * b + r` with `Abs(r) < Abs(b)`, and `r` is zero or has the sign of `a` |
| CArith.ClearLowBit | trunk/mediastreamer2/src/videoout.c:852-853 | `x & ~0x1` is the even number `e` with `e <= x < e + 2` |
| MsVideoPlanes.CopyBytes | trunk/mediastreamer2/src/msvideo.c:155-158 | `memcpy` of `n` bytes between non-overlapping spans: the destination span takes the source bytes, every other byte is kept |
| MsVideoPlanes.CopiedCell | trunk/mediastreamer2/src/msvideo.c:150-166 | after a plane copy, byte `j` of destination line `i` equals byte `j` of source line `i` |
| MsVideoPlanes.PackedCopy | trunk/mediastreamer2/src/msvideo.c:155-159 | when both strides equal the width, the single `memcpy` of `width * height` bytes gives exactly the line-by-line copy |
| MsVideoPlanes.CopiedLine | trunk/mediastreamer2/src/msvideo.c:160-165 | copying one more line extends the copied prefix of lines by one |
| MsVideoPlanes.CopyLines | trunk/mediastreamer2/src/msvideo.c:160-165 | the line loop leaves the destination equal to the plane copy of the window, and no other byte changes |
| MsVideoPlanes.PlaneCopy | trunk/mediastreamer2/src/msvideo.c:150-166 | `plane_copy` on either path leaves the destination equal to the plane copy of the `roi` window |
| MsVideoPlanes.SourceInWindow | trunk/mediastreamer2/src/msvideo.c:179-233 | the byte a window cell takes under any mirror lies in the window, at the partner line and column |
| MsVideoPlanes.MirroredCell | trunk/mediastreamer2/src/msvideo.c:179-233 | byte `(i, j)` of a mirrored window takes the old byte at `(i, w-1-j)` (horizontal), `(h-1-i, j)` (vertical) or `(h-1-i, w-1-j)` (central); bytes outside the window are kept |
| MsVideoPlanes.MirroredAt | trunk/mediastreamer2/src/msvideo.c:179-233 | the same statement by buffer index: an index in the window takes its partner index, any other index is kept |
| MsVideoPlanes.MirroredTwice | trunk/mediastreamer2/src/msvideo.c:179-233 | every mirror applied twice restores the buffer |
| MsVideoPlanes.SourceTwice | trunk/mediastreamer2/src/msvideo.c:179-233 | the partner of a window cell's partner is the cell itself, under every mirror |
| MsVideoPlanes.NoPassYet | trunk/mediastreamer2/src/msvideo.c:184 | before the first pass the mirror has been done for no line |
| MsVideoPlanes.PassStep | trunk/mediastreamer2/src/msvideo.c:184-194 | one more outer pass extends the mirrored lines by one (by two for the line-pair mirrors) |
| MsVideoPlanes.PassesDone | trunk/mediastreamer2/src/msvideo.c:184-231 | after `h` horizontal passes, `h/2` vertical passes or `(h+1)/2` central passes the window is fully mirrored |
| MsVideoPlanes.SwapReversed | trunk/mediastreamer2/src/msvideo.c:186-192 | swapping the `n` pairs `(p+t, e-t)` gives byte `p+t` the old byte `e-t` and back, and keeps every other byte |
| MsVideoPlanes.HorizontalPass | trunk/mediastreamer2/src/msvideo.c:184-194 | one pass of `plane_horizontal_mirror` swaps the `w/2` symmetric byte pairs of line `j`, which reverses that line of the window |
| MsVideoPlanes.CentralPass | trunk/mediastreamer2/src/msvideo.c:203-215 | one pass of `plane_central_mirror` reverses line `j` against line `h-1-j`, or the middle line against itself |
| MsVideoPlanes.CenterAhead | trunk/mediastreamer2/src/msvideo.c:201-206 | the `p < image_center` guard lets a full line of `w` bytes through before the middle line and stops after `w/2` bytes on it |
| MsVideoPlanes.ExchangeLines | trunk/mediastreamer2/src/msvideo.c:225-227 | the three `memcpy` calls through the scratch buffer exchange two non-overlapping spans of `n` bytes and keep every other byte |
| MsVideoPlanes.VerticalPass | trunk/mediastreamer2/src/msvideo.c:223-231 | one pass of `plane_vertical_mirror` exchanges the first `w` bytes of line `j` and line `h-1-j` |
| MsVideoPlanes.PlaneHorizontalMirror | trunk/mediastreamer2/src/msvideo.c:179-195 | each of the `h` lines has its first `w` bytes reversed in place; bytes beyond `w` and outside the window are kept |
| MsVideoPlanes.PlaneVerticalMirror | trunk/mediastreamer2/src/msvideo.c:219-233 | line `j` and line `h-1-j` are exchanged on their first `w` bytes; for odd `h` the middle line is kept |
| MsVideoPlanes.CentralPasses | trunk/mediastreamer2/src/msvideo.c:197-217 | the central-mirror loop with `h/2` or `(h+1)/2` outer passes mirrors exactly that many line pairs |
| MsVideoPlanes.PlaneCentralMirrorAsWritten | trunk/mediastreamer2/src/msvideo.c:197-217 | `plane_central_mirror` as written, with `h/2` outer passes |
| MsVideoPlanes.PlaneCentralMirror | trunk/mediastreamer2/src/msvideo.c:197-217 | the central mirror with `(h+1)/2` passes rotates the window by 180 degrees: byte `(i, j)` takes byte `(h-1-i, w-1-j)` |
| MsVideoPlanes.CentralAsWrittenEvenHeight | trunk/mediastreamer2/src/msvideo.c:204 | for even `h` the code as written is the 180-degree rotation |
| MsVideoPlanes.CentralAsWrittenKeepsMiddleLine | trunk/mediastreamer2/src/msvideo.c:204 | for odd `h` the code as written leaves the middle line untouched |
| MsVideoPlanes.CentralAsWrittenNotRotation | trunk/mediastreamer2/src/msvideo.c:204 | for odd `h`, a middle line whose first and last bytes differ is not rotated by the code as written |
| MsVideoPlanes.NoMirrorKeeps | trunk/mediastreamer2/src/msvideo.c:249-250 | `MS_NO_MIRROR` leaves the plane unchanged |
| MsVideoPlanes.PlaneMirror | trunk/mediastreamer2/src/msvideo.c:235-252 | `plane_mirror` dispatches on the mirror type, and the plane becomes its mirror of that type (the central one corrected) |
| MsVideoPlanes.PixelPartnerInLine | trunk/mediastreamer2/src/msvideo.c:315-322 | byte `c` of a line is exchanged with the same channel of pixel `w-1-c/3`, inside the line, and that exchange is its own inverse |
| MsVideoPlanes.ExchangePixels | trunk/mediastreamer2/src/msvideo.c:314-322 | the six byte moves through `r`, `g`, `b` exchange the three-byte pixels at `p` and `q` and keep every other byte |
| MsVideoPlanes.PixelStep | trunk/mediastreamer2/src/msvideo.c:312-322 | swapping pixel `t` with pixel `w-1-t` extends the reversed pixels of the line by one |
| MsVideoPlanes.PartlyReversedEnds | trunk/mediastreamer2/src/msvideo.c:312 | with no pixel pair swapped the line is unchanged, and once `2t >= w` pairs are swapped its pixels are in reverse order |
| MsVideoPlanes.MirrorPixelLine | trunk/mediastreamer2/src/msvideo.c:312-322 | the inner loop of `rgb24_mirror` reverses the order of the `w` pixels of one line and keeps the three bytes of each pixel in order |
| MsVideoPlanes.PixelsMirroredCell | trunk/mediastreamer2/src/msvideo.c:304-326 | after `rgb24_mirror`, channel `b` of pixel `x` in line `i` holds the old channel `b` of pixel `w-1-x` |
| MsVideoPlanes.PixelsMirroredTwice | trunk/mediastreamer2/src/msvideo.c:304-326 | `rgb24_mirror` applied twice restores the picture |
| MsVideoPlanes.NoPixelLineYet | trunk/mediastreamer2/src/msvideo.c:310 | before the first line no line is mirrored |
| MsVideoPlanes.PixelLinePass | trunk/mediastreamer2/src/msvideo.c:310-324 | mirroring one more line extends the mirrored lines by one |
| MsVideoPlanes.Rgb24Mirror | trunk/mediastreamer2/src/msvideo.c:304-326 | the picture becomes its pixel-wise left-right mirror, and bytes outside the `3w` x `h` window are kept |
| MsVideoPlanes.CopyLineReversed | trunk/mediastreamer2/src/msvideo.c:360-363 | destination byte `dp+n-1-j` takes source byte `sp+j`, and every other destination byte is kept |
| MsVideoPlanes.RevertLine | trunk/mediastreamer2/src/msvideo.c:358-366 | copying source line `i` reversed into destination line `h-1-i` extends the copied lines by one |
| MsVideoPlanes.RevertedAll | trunk/mediastreamer2/src/msvideo.c:350-368 | after `h` lines the destination is the copy of the source rotated by 180 degrees |
| MsVideoPlanes.RevertedCell | trunk/mediastreamer2/src/msvideo.c:350-368 | destination line `h-1-i`, byte `3w-1-j` holds source line `i`, byte `j` |
| MsVideoPlanes.Rgb24CopyRevert | trunk/mediastreamer2/src/msvideo.c:350-368 | `rgb24_copy_revert` writes the 180-degree rotation of the source window into the destination window and keeps every other destination byte |
| MsVideo.PixFmtToFfmpeg | trunk/mediastreamer2/src/msvideo.c:408-434 | formats ffmpeg has no code for answer -1; `MS_YUY2` and `MS_YUYV` (and only they) share `PIX_FMT_YUYV422` |
| MsVideo.FfmpegToPixFmt | trunk/mediastreamer2/src/msvideo.c:436-460 | an unknown ffmpeg code answers `MS_YUV420P`; the table never produces `MS_YUY2`, `MS_MJPEG` or an unknown format |
| MsVideo.FfmpegRoundTrip | trunk/mediastreamer2/src/msvideo.c:408-460 | the two tables are inverse on every format ffmpeg knows, except that `MS_YUY2` comes back as `MS_YUYV` |
| MsVideo.MakeFourcc | trunk/mediastreamer2/src/msvideo.c:270-272 | the four characters packed little-endian: byte `k` of the 32-bit code is character `k` |
| MsVideo.FourccToPixFmt | trunk/mediastreamer2/src/msvideo.c:274-302 | a recognised code is the FOURCC of the format returned; anything else is `MS_PIX_FMT_UNKNOWN` |
| MsVideo.FourccRecognised | trunk/mediastreamer2/src/msvideo.c:274-302 | each format with a FOURCC (I420, YUY2, YUYV, UYVY, MJPG, 0 for RGB24) is recognised from it, and a code maps to unknown exactly when no format has it |
| MsVideo.YuvBufInit | trunk/mediastreamer2/src/msvideo.c:40-56 | the picture is `w` x `h` with three planes from `ptr`; the fourth plane is NULL with stride 0 |
| MsVideo.YuvBufInitLayout | trunk/mediastreamer2/src/msvideo.c:40-56 | luma, then the two quarter-size chroma planes, follow each other without overlapping and fit in the `w*h*3/2` bytes reserved for the picture |
| MsVideo.ReadHeader | trunk/mediastreamer2/src/msvideo.c:64-66 | the header fields are read as two 16-bit values |
| MsVideo.HeaderRoundTrip | trunk/mediastreamer2/src/msvideo.c:33-36 | reading back a written header gives the sizes modulo 2^16, and the sizes themselves when they are below 2^16 |
| MsVideo.YuvBufAlloc | trunk/mediastreamer2/src/msvideo.c:116-132 | the block holds header, picture and 16 padding bytes; the header at the base holds `w` and `h`; `rptr` is past the header, `wptr - rptr == w*h*3/2`; the picture is laid out from `rptr` |
| MsVideo.YuvBufAllocFromBuffer | trunk/mediastreamer2/src/msvideo.c:134-148 | a header-only block holding `w` and `h`, both cursors past the header, with the caller's block as continuation |
| MsVideo.YuvBufInitFromMblk | trunk/mediastreamer2/src/msvideo.c:58-73 | the picture has the sizes the header announces and YUV 4:2:0 planes |
| MsVideo.AllocInitRoundTrip | trunk/mediastreamer2/src/msvideo.c:58-73 | a block from `ms_yuv_buf_alloc` with sizes below 2^16 reads back as the same picture, laid out from its read cursor |
| MsVideo.AllocFromBufferRoundTrip | trunk/mediastreamer2/src/msvideo.c:58-73 | a block from `ms_yuv_buf_alloc_from_buffer` with sizes below 2^16 reads back as that picture, laid out from the appended block's read cursor |
| MsVideo.YuvBufInitFromMblkWithSize | trunk/mediastreamer2/src/msvideo.c:75-81 | a `w` x `h` YUV 4:2:0 picture whose luma plane starts at the continuation block's read cursor when there is one, else at the block's own |
| MsVideo.WithSizeAgreesWithHeader | trunk/mediastreamer2/src/msvideo.c:58-81 | on a block from `ms_yuv_buf_alloc` or `ms_yuv_buf_alloc_from_buffer` holding sizes below 2^16, the size-given reader and the header-reading reader give the same picture, so the header skip is the same in both |
| MsVideo.PictureInitFromMblkWithSize | trunk/mediastreamer2/src/msvideo.c:83-114 | success exactly for YUV420P, YUY2, YUYV, UYVY, RGB24 and RGB24_REV; -1 with the picture untouched otherwise; packed formats get one plane with stride `w*2` or `w*3` |
| MsVideo.PictureInitSkipsTwice | trunk/mediastreamer2/src/msvideo.c:86-90 | for YUV420P a header block is skipped twice, so a chain of three blocks gives the picture of the third |
| MsVideo.YuvBufCopy | trunk/mediastreamer2/src/msvideo.c:168-177 | the luma window and both chroma windows, halved, are copied in that order |
| MsVideo.YuvBufMirrors | trunk/mediastreamer2/src/msvideo.c:262-268 | the luma plane and both half-size chroma planes are each mirrored by the chosen type (the central mirror corrected) |
| MsVideo.YuvBufMirror | trunk/mediastreamer2/src/msvideo.c:255-259 | the whole picture is mirrored horizontally |
| MsVideo.StackedPlanes | trunk/mediastreamer2/src/msvideo.c:40-56 | in a picture laid out by `yuv_buf_init` the three planes occupy disjoint, ordered ranges |
| MsVideo.MirroredPlanesCell | trunk/mediastreamer2/src/msvideo.c:262-268 | a byte of plane `i` takes its partner in plane `i`; the other planes' mirrors do not touch it |
| MsVideo.MirroredPlanesOutside | trunk/mediastreamer2/src/msvideo.c:262-268 | bytes outside the three planes are kept |
| MsVideo.MirroredPlanesTwice | trunk/mediastreamer2/src/msvideo.c:262-268 | mirroring a laid-out picture twice restores it |
| VideoOut.GcdDivides | trunk/mediastreamer2/src/videoout.c:134-141 | `gcd(m, n)` of nonnegative values, not both zero, is positive and divides both |
| VideoOut.GcdGreatest | trunk/mediastreamer2/src/videoout.c:134-141 | every positive common divisor of `m` and `n` divides `gcd(m, n)` |
| VideoOut.LowestTerms | trunk/mediastreamer2/src/videoout.c:143-149 | dividing both values by their gcd leaves values whose gcd is 1 |
| VideoOut.Reduce | trunk/mediastreamer2/src/videoout.c:143-149 | each value is divided by the gcd, the ratio is kept (`rnum * denom == rdenom * num`) and the result is in lowest terms |
| VideoOut.AspectFit | trunk/mediastreamer2/src/videoout.c:462-480 | the picture is `k` steps of the frame's reduced ratio with `k = min(right / ratiow, bottom / ratioh)`; it lies within the client rectangle, one more step would not, and it has exactly the frame's aspect ratio, so the "wrong ratio" branch is never taken |
| VideoOut.SelfviewSize | trunk/mediastreamer2/src/videoout.c:547-553 | the self-view width is the picture width over the scale factor rounded down to a multiple of the self-view frame's reduced ratio width, the height is the same number of steps of the ratio height, so the self-view has exactly that frame's ratio |
| VideoOut.WindowSelfviewPos | trunk/mediastreamer2/src/videoout.c:570-593 | the self-view sits 20 pixels from the two edges of its corner (corners 1 and 5 at (20, 20)); when it leaves room for both margins it lies inside the window |
| VideoOut.SelfviewCornerAlias | trunk/mediastreamer2/src/videoout.c:570-587 | corners 5 to 7 place the self-view as corners 1 to 3 |
| VideoOut.LocalRect | trunk/mediastreamer2/src/videoout.c:806-838 | the self-view rectangle is the frame divided by the scale factor and rounded down to even; it touches the frame edges of its corner (1 top left, 2 top right, 3 bottom left, else bottom right) and lies inside the frame for a scale factor of at least 1 |
| VideoOut.CifGeometry | trunk/mediastreamer2/src/videoout.c:858-884 | the initial CIF frame puts the quarter-size self-view at (264, 216), 88 x 72 |
| VideoOut.VideoOut.constructor | trunk/mediastreamer2/src/videoout.c:858-884 | a CIF frame, corner 0, scale factor 4, self-view geometry consistent with it, no display, not ready, autofit and mirroring off, black background |
| VideoOut.VideoOut.SetCorner | trunk/mediastreamer2/src/videoout.c:806-841 | the corner is recorded, the self-view rectangle and picture follow `LocalRect`, the self-view frame is the even-rounded frame, and nothing else changes |
| VideoOut.VideoOut.GetCorner | trunk/mediastreamer2/src/videoout.c:1215-1221 | returns the corner last set |
| VideoOut.VideoOut.SetVsize | trunk/mediastreamer2/src/videoout.c:849-856 | the frame takes the requested size rounded down to even and the self-view geometry is recomputed; the invariant is kept |
| VideoOut.VideoOut.SetDisplay | trunk/mediastreamer2/src/videoout.c:1172-1178 | only the display changes |
| VideoOut.VideoOut.SetAutofit | trunk/mediastreamer2/src/videoout.c:1180-1186 | only the autofit flag changes; it keeps the low byte of the argument |
| VideoOut.VideoOut.EnableMirroring | trunk/mediastreamer2/src/videoout.c:1260-1266 | only the mirror flag changes; it keeps the low byte of the argument |
| VideoOut.VideoOut.SetBackgroundColor | trunk/mediastreamer2/src/videoout.c:1302-1310 | only the background colour changes, to the given triple |
| VideoOut.VideoOut.GetBackgroundColor | trunk/mediastreamer2/src/videoout.c:1312-1320 | returns the triple last set |
| VideoOut.VideoOut.Prepare | trunk/mediastreamer2/src/videoout.c:910-946 | without a display or a default one nothing changes; otherwise the display (owned if created here) is kept exactly when its init succeeds, the local message is released, the geometry is recomputed and the filter is ready |
| VideoOut.VideoOut.HandleResizing | trunk/mediastreamer2/src/videoout.c:955-984 | without a display the answer is -1; any event answers 1 and a resize event clears `ready`; otherwise the poll's result is returned |
| VideoOut.HandledIsFirstStop | trunk/mediastreamer2/src/videoout.c:1001-1006 | the resize loop consumes polls up to the first negative result, at most 100 |
| VideoOut.VideoOut.PollResizes | trunk/mediastreamer2/src/videoout.c:1001-1006 | with a display, the filter stays ready exactly when it was and no consumed poll reported a resize; nothing else changes |
| VideoOut.VideoOut.DrainSelfview | trunk/mediastreamer2/src/videoout.c:1019-1080 | the self-view input is emptied; with corner -1 the local message is dropped, else the self-view or the main picture is marked for redraw, and only when the input held a frame |
| VideoOut.VideoOut.DrainMain | trunk/mediastreamer2/src/videoout.c:1082-1129 | only the newest frame is read and the input is emptied; with autofit and a new size, the size is recorded and, clamped to QVGA, becomes the new frame size rounded to even followed by a prepare when it differs; the display is still there afterwards |
| VideoOut.VideoOut.Process | trunk/mediastreamer2/src/videoout.c:992-1160 | both inputs end empty; the display is there after polling and preparing exactly when it was and stayed ready or its initialisation succeeded; without it nothing is drawn; with it the main picture is redrawn exactly when the main input, or a self-view input without self-view planes and corner other than -1, held a frame, and the self-view is redrawn exactly when that input held one and the display has the planes; the filter ends ready unless it had neither a display nor a default one; the display ownership, the local message, the last size seen and the frame size after the tick are each given in terms of the old state, the polls and the newest frames; settings, corner and scale factor are kept, and the invariant holds |
| OsipList.Insert | trunk/osip/src/osipparser2/osip_list.c:136-217 | the element lands at index `k`, earlier elements are kept and later ones shift up by one |
| OsipList.Delete | trunk/osip/src/osipparser2/osip_list.c:318-359 | the element at index `k` is gone, earlier elements are kept and later ones shift down by one |
| OsipList.DeleteInsert | trunk/osip/src/osipparser2/osip_list.c:136-217 | removing at the index just inserted at restores the list |
| OsipList.InsertIndex | trunk/osip/src/osipparser2/osip_list.c:148-185 | an empty list inserts at 0; -1 or a position past the end appends; `0 <= pos < n` inserts at `pos`; another negative position inserts at 1 |
| OsipList.List.Size | trunk/osip/src/osipparser2/osip_list.c:104-112 | the size is the number of elements reachable from the head |
| OsipList.List.Eol | trunk/osip/src/osipparser2/osip_list.c:118-128 | 0 exactly when `i` is below the size, 1 otherwise |
| OsipList.List.Get | trunk/osip/src/osipparser2/osip_list.c:224-247 | the element at `pos` when `0 <= pos < size`, NULL otherwise; the list is unchanged |
| OsipList.List.Add | trunk/osip/src/osipparser2/osip_list.c:136-217 | on allocation failure `OSIP_NOMEM` and the list (head, links, size) unchanged; otherwise the element is inserted at `InsertIndex(size, pos)` and the new size returned |
| OsipList.List.Remove | trunk/osip/src/osipparser2/osip_list.c:318-359 | an out-of-range position gives `OSIP_UNDEFINED_ERROR` and changes nothing; otherwise exactly that element is removed, the rest keep their order, and the new size is returned |
| OsipList.List.Unlink | trunk/osip/src/osipparser2/osip_list.c:341-356 | relinking around the node at `pos` (from the head or from its predecessor) removes exactly that node and element, keeps the others in order and decrements the size |
| OsipList.List.TakeHead | trunk/osip/src/osipparser2/osip_list.c:75-76 | reading element 0 and then removing position 0 returns the old first element and leaves the rest of the list in order |
| OsipList.List.SpecialFree | trunk/osip/src/osipparser2/osip_list.c:64-80 | the list ends empty, and `free_func` sees every element once, front to back, when it is given |
| OsipList.Init | trunk/osip/src/osipparser2/osip_list.c:27-35 | a NULL list gives `OSIP_BADPARAMETER`; otherwise the list is empty and the answer is `OSIP_SUCCESS` |
| OsipList.Iterator.GetFirst | trunk/osip/src/osipparser2/osip_list.c:251-268 | on an empty list the current node is cleared, the rest of the cursor is kept and NULL returned; otherwise the cursor is at index 0 and the first element is returned |
| OsipList.Iterator.GetNext | trunk/osip/src/osipparser2/osip_list.c:272-287 | the cursor moves to the next index and returns the element there, or NULL past the end |
| OsipList.Iterator.Remove | trunk/osip/src/osipparser2/osip_list.c:293-312 | with a current element, exactly that element is unlinked and the size drops by one; the element now at the cursor, or NULL, is returned |
| OsipList.FirstFailure | trunk/osip/src/osipparser2/osip_list.c:49-55 | the index of the first element whose clone fails, or the length when none does |
| OsipList.Clones | trunk/osip/src/osipparser2/osip_list.c:53 | the clones of the elements, in order |
| OsipList.ClonesStep | trunk/osip/src/osipparser2/osip_list.c:49-57 | cloning one more element appends its clone |
| OsipList.FirstFailureAt | trunk/osip/src/osipparser2/osip_list.c:49-55 | the first failure is the first index whose clone fails |
| OsipList.CloneNext | trunk/osip/src/osipparser2/osip_list.c:49-57 | one loop step appends the clone of the current element to `dst` and moves the cursor on |
| OsipList.Clone | trunk/osip/src/osipparser2/osip_list.c:38-59 | `dst` gets the clones of the source elements appended in order up to the first failing clone, whose code is returned, or `OSIP_SUCCESS`; the source is unchanged |

## Left out

- Win32 windowing and GDI drawing (`window_proc`, `create_window`, `DrawDib*`, `BitBlt`, `MoveWindow`): these are platform UI calls. Only the integer geometry they are fed is modelled.
- ffmpeg/swscale scaling and the `yuv420p_to_rgb*` converters: these are foreign library calls. The pixel effects inside `video_out_process` are not modelled either: the scaling into the frame buffers, the mirroring of the drawn pictures, and the copy of the local self-view into the frame. The same goes for the clearing of the frame planes in `video_out_set_corner`.
- Floating point:
  - `ms_rgb_to_yuv`;
  - `video_out_set_scalefactor`/`get_scalefactor`;
  - `set/get_selfview_pos` and the explicit self-view position;
  - the self-view placement beside the picture, whose branch conditions compare against float quotients (videoout.c:605-668).
- The scale factor is a positive integer divisor, 4 by default. For the nonnegative sizes involved, truncating `w / 4.0` gives the same value as the integer quotient.
- `rgb24_revert`: its inner loop indexes by `i`, not `j`, so it exchanges one byte pair `3w` times and makes no promise worth stating.
- `ms_video_size_get_just_lower_than` and `ms_video_size_greater_than`: the latter is defined in a header this model does not include, so the QVGA comparison of autofit is the parameter `qvgaLarger`.
- `video_out_handle_resizing` (a stub answering -1), `video_out_get_native_window_id`, `video_out_uninit`, the filter and display locks, and the process-wide default display: these are resource release, concurrency and global state. The default display is the parameter `defaultDesc`.
- `osip_list_ofchar_free`: a free-all loop like `osip_list_special_free`, with `osip_free` as the free function.
- The NULL-list guards of `osip_list_size`, `eol`, `add`, `get`, `remove` and `special_free`: the model's list methods run on an existing list. Only `osip_list_init` takes a nullable list.
- `allocb` is assumed to succeed, as the message-block code assumes. `osip_list_add` inside `osip_list_clone` is assumed to allocate, since clone ignores its result.
- The `ms_display_update` call at the end of `video_out_process` is represented by the returned `update`/`updateSelfview` flags.
- VideoOut.Reduce: requires nonnegative values, not both zero. `gcd(0, 0)` would make `reduce` divide by zero, and the callers pass frame sizes.
- VideoOut.AspectFit: requires a frame with positive sides and a nonnegative client rectangle. A zero-sized frame makes `reduce` divide by zero.
- VideoOut.SelfviewSize: the scale factor is an integer at least 1, not the float `sv_scalefactor`.
- VideoOut.VideoOut.SetCorner: requires a scale factor of at least 1. The filter never has another, because the float setter is not modelled.
- VideoOut.VideoOut.Process: requires the two inputs to be distinct queues, the newest main-input block to hold a video header, and the autofit re-initialisation to succeed as for VideoOut.VideoOut.DrainMain.
- MsVideo.YuvBufInitFromMblk: requires the block to hold at least the four header bytes that are read.
- MsVideoPlanes.PlaneCopy: requires source and destination in distinct buffers, as `memcpy` does. The same holds for MsVideoPlanes.CopyLines, MsVideo.YuvBufCopy and MsVideoPlanes.Rgb24CopyRevert.
- OsipList.Iterator.GetNext: requires a current node, which `osip_list_get_next` dereferences.
- MsVideo.PixFmtToFfmpeg: the `ms_fatal` log of an unsupported format (msvideo.c:430) is not modelled, only the -1 returned after it; where that log aborts the process, the fallback is never reached.
- MsVideo.FfmpegToPixFmt: the `ms_fatal` log of an unknown ffmpeg code (msvideo.c:456) is not modelled, only the `MS_YUV420P` returned after it.
- MsVideo.PictureInitFromMblkWithSize: the `ms_fatal` log of an unsupported format (msvideo.c:110) is not modelled, only the -1 returned with the picture untouched.
- The scaling contexts `sws1`/`sws2`: their creation, release in `video_out_prepare` and reuse across size changes (videoout.c:1034, 1112) are not modelled, as they belong to the foreign swscale library.
- MsVideoPlanes.PlaneMirror: for `MS_CENTRAL_MIRROR` it follows the corrected definition of the Findings row (`(h + 1) / 2` passes). For an odd plane height the code as written leaves the middle line unreversed; `PlaneCentralMirrorAsWritten` states what it does.
- MsVideo.YuvBufMirrors: mirrors each plane through MsVideoPlanes.PlaneMirror, so `MS_CENTRAL_MIRROR` also rotates the middle line of a plane of odd height, such as the 3-line chroma planes of a 6-line picture, where the code as written leaves it.
- OsipList.Clone: requires distinct source and destination lists. `osip_list_clone(l, l)` appends to the list it walks and never terminates.
- VideoOut.VideoOut.DrainMain: requires the newest main-input block to hold the four header bytes read from it, and the second `ms_display_init` (`reinitOk`), made when autofit changes the frame size, to succeed. When it fails, `video_out_prepare` drops the display, and the code then dereferences the NULL display in `ms_display_lock` (videoout.c:1118) and `ms_display_update` (videoout.c:1155); that crash is not modelled.
- C `int` overflow of products such as `w * h * 3`, `h * fb.w` and `w * fb.h`: the model's integers are unbounded, so sizes whose products exceed 2^31 are not modelled as wrapping.
- OsipList.Clone: `clone_func` is a pure function returning a status and a clone. Side effects of a real clone function are not modelled.

## Findings

| source | as written | input that shows it | evidently intended | confidence | as-written member | corrected member |
|---|---|---|---|---|---|---|
| trunk/mediastreamer2/src/msvideo.c:204 | the outer loop runs `h / 2` passes, so for an odd height the middle line is never reversed | `h = 3`, `w = 2`, middle line `(1, 2)`: it stays `(1, 2)`, where a 180-degree rotation gives `(2, 1)` | `(h + 1) / 2` passes: the `p < image_center` guard already stops the last pass at the centre of the middle line | not executed | MsVideoPlanes.PlaneCentralMirrorAsWritten, MsVideoPlanes.CentralAsWrittenNotRotation | MsVideoPlanes.PlaneCentralMirror |
