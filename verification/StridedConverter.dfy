/** Copies between the Android and the C2D layout of semi-planar YUV images. Each plane is copied row by
    row with different strides on the two sides; a chroma row is copied with the source stride, so on
    the way to the narrower layout it spills into the next destination row, which then overwrites it.
 */
module StridedConverter {
  import opened Alignment
  import opened Bytes
  import opened Rows
  import GrallocLayout
  import PlaneLayout

  const SUCCESS: int := 0
  const FAILURE: int := -1

  /** `rows` rows of `n` bytes, `stride` apart from `off` on, lie within `len` bytes. */
  predicate Fits(len: nat, off: nat, stride: nat, n: nat, rows: nat) {
    rows > 0 ==> RowStart(off, stride, rows - 1) + n <= len
  }

  lemma RowFits(len: nat, off: nat, stride: nat, n: nat, rows: nat, i: nat)
    requires i < rows && Fits(len, off, stride, n, rows)
    ensures RowStart(off, stride, i) + n <= len && Fits(len, off, stride, n, i + 1)
    ensures RowStart(off, stride, i + 1) == RowStart(off, stride, i) + stride
  {
    RowStartMono(off, stride, i, rows - 1);
  }

  /** Copying `rows` rows of `n` bytes in order; a row may overwrite the tail of the one before. */
  function CopyRows(dst: seq<byte>, dOff: nat, dStride: nat, src: seq<byte>, sOff: nat, sStride: nat,
                    n: nat, rows: nat): (r: seq<byte>)
    requires Fits(|dst|, dOff, dStride, n, rows) && Fits(|src|, sOff, sStride, n, rows)
    ensures |r| == |dst|
  {
    if rows == 0 then dst
    else
      var from := RowStart(sOff, sStride, rows - 1);
      Overlay(CopyRows(dst, dOff, dStride, src, sOff, sStride, n, rows - 1),
              RowStart(dOff, dStride, rows - 1), src[from..from + n])
  }

  /** The last row is written over the rows before it. */
  lemma CopyRowsLast(dst: seq<byte>, dOff: nat, dStride: nat, src: seq<byte>, sOff: nat, sStride: nat,
                     n: nat, rows: nat, k: nat)
    requires rows > 0 && k < |dst|
    requires Fits(|dst|, dOff, dStride, n, rows) && Fits(|src|, sOff, sStride, n, rows)
    ensures Fits(|dst|, dOff, dStride, n, rows - 1) && Fits(|src|, sOff, sStride, n, rows - 1)
    ensures CopyRows(dst, dOff, dStride, src, sOff, sStride, n, rows)[k]
         == if RowStart(dOff, dStride, rows - 1) <= k < RowStart(dOff, dStride, rows - 1) + n
            then src[RowStart(sOff, sStride, rows - 1) + (k - RowStart(dOff, dStride, rows - 1))]
            else CopyRows(dst, dOff, dStride, src, sOff, sStride, n, rows - 1)[k]
  {
    var to, from := RowStart(dOff, dStride, rows - 1), RowStart(sOff, sStride, rows - 1);
    OverlayAt(CopyRows(dst, dOff, dStride, src, sOff, sStride, n, rows - 1), to, src[from..from + n], k);
  }

  /** What survives the overlaps: the part of a row before the next row starts, and all of the last. */
  lemma {:induction false} CopyRowsAt(dst: seq<byte>, dOff: nat, dStride: nat, src: seq<byte>,
                                      sOff: nat, sStride: nat, n: nat, rows: nat, r: nat, x: nat)
    requires Fits(|dst|, dOff, dStride, n, rows) && Fits(|src|, sOff, sStride, n, rows)
    requires r < rows && x < n && (x < dStride || r == rows - 1)
    ensures RowStart(dOff, dStride, r) + x < |dst| && RowStart(sOff, sStride, r) + x < |src|
    ensures CopyRows(dst, dOff, dStride, src, sOff, sStride, n, rows)[RowStart(dOff, dStride, r) + x]
         == src[RowStart(sOff, sStride, r) + x]
  {
    RowStartMono(dOff, dStride, r, rows - 1);
    RowStartMono(sOff, sStride, r, rows - 1);
    CopyRowsLast(dst, dOff, dStride, src, sOff, sStride, n, rows, RowStart(dOff, dStride, r) + x);
    if r < rows - 1 {
      CopyRowsAt(dst, dOff, dStride, src, sOff, sStride, n, rows - 1, r, x);
    }
  }

  /** Nothing before the first row or after the end of the last one changes. */
  lemma {:induction false} CopyRowsOutside(dst: seq<byte>, dOff: nat, dStride: nat, src: seq<byte>,
                                           sOff: nat, sStride: nat, n: nat, rows: nat, k: nat)
    requires Fits(|dst|, dOff, dStride, n, rows) && Fits(|src|, sOff, sStride, n, rows)
    requires k < |dst| && (k < dOff || (rows > 0 && k >= RowStart(dOff, dStride, rows - 1) + n))
    ensures CopyRows(dst, dOff, dStride, src, sOff, sStride, n, rows)[k] == dst[k]
  {
    if rows > 0 {
      CopyRowsLast(dst, dOff, dStride, src, sOff, sStride, n, rows, k);
      if rows > 1 {
        CopyRowsOutside(dst, dOff, dStride, src, sOff, sStride, n, rows - 1, k);
      }
    }
  }

  /** One more row, appended to what the earlier rows left. */
  method CopyRow(dst: array<byte>, dOff: nat, dStride: nat, src: array<byte>, sOff: nat, sStride: nat,
                 n: nat, d: nat, s: nat, ghost i: nat, ghost was: seq<byte>)
    requires src != dst && |was| == dst.Length
    requires d == RowStart(dOff, dStride, i) && s == RowStart(sOff, sStride, i)
    requires d + n <= dst.Length && s + n <= src.Length
    requires Fits(|was|, dOff, dStride, n, i) && Fits(src.Length, sOff, sStride, n, i)
    requires dst[..] == CopyRows(was, dOff, dStride, src[..], sOff, sStride, n, i)
    modifies dst
    ensures dst[..] == CopyRows(was, dOff, dStride, src[..], sOff, sStride, n, i + 1)
  {
    Memcpy(dst, d, src, s, n);
    assert src[s..s + n] == src[..][s..s + n];
  }

  method CopyPlane(dst: array<byte>, dOff: nat, dStride: nat, src: array<byte>, sOff: nat, sStride: nat,
                   n: nat, rows: nat)
    requires src != dst
    requires Fits(dst.Length, dOff, dStride, n, rows) && Fits(src.Length, sOff, sStride, n, rows)
    modifies dst
    ensures dst[..] == CopyRows(old(dst[..]), dOff, dStride, src[..], sOff, sStride, n, rows)
  {
    ghost var was := dst[..];
    var d, s := dOff, sOff;
    for i := 0 to rows
      invariant d == RowStart(dOff, dStride, i) && s == RowStart(sOff, sStride, i)
      invariant Fits(dst.Length, dOff, dStride, n, i) && Fits(src.Length, sOff, sStride, n, i)
      invariant dst[..] == CopyRows(was, dOff, dStride, src[..], sOff, sStride, n, i)
    {
      RowFits(dst.Length, dOff, dStride, n, rows, i);
      RowFits(src.Length, sOff, sStride, n, rows, i);
      CopyRow(dst, dOff, dStride, src, sOff, sStride, n, d, s, i, was);
      s := s + sStride;
      d := d + dStride;
    }
  }

  datatype Format = YCbCr420SP | YCrCb420SP | NV12Encodeable | Other

  /** The strides and chroma offsets of one copy. */
  datatype CopyInfo = CopyInfo(width: nat, height: nat, srcStride: nat, dstStride: nat,
                               srcPlane1: nat, dstPlane1: nat)

  function Plane1Offset(format: Format, stride: nat, height: nat): nat {
    if format == NV12Encodeable then AlignUp(Times(stride, height), 2048) else Times(stride, height)
  }

  function ToAndroidInfo(format: Format, w: nat, h: nat): CopyInfo {
    var s, d := AlignUp(w, 32), AlignUp(w, 16);
    CopyInfo(w, h, s, d, Plane1Offset(format, s, h), Plane1Offset(format, d, h))
  }

  function ToC2dInfo(format: Format, handleWidth: nat, w: nat, h: nat): CopyInfo {
    var s, d := AlignUp(handleWidth, 16), AlignUp(w, 32);
    CopyInfo(w, h, s, d, Plane1Offset(format, s, h), Plane1Offset(format, d, h))
  }

  /** Both buffers hold the rows the copy reads and writes; the last chroma row is `srcStride` bytes
      even where the destination's rows are narrower. */
  predicate Room(srcLen: nat, dstLen: nat, info: CopyInfo) {
    && Fits(srcLen, 0, info.srcStride, info.width, info.height)
    && Fits(dstLen, 0, info.dstStride, info.width, info.height)
    && Fits(srcLen, info.srcPlane1, info.srcStride, info.srcStride, info.height / 2)
    && Fits(dstLen, info.dstPlane1, info.dstStride, info.srcStride, info.height / 2)
  }

  /** The destination after both planes are copied. */
  function Copied(dst: seq<byte>, src: seq<byte>, info: CopyInfo): (r: seq<byte>)
    requires Room(|src|, |dst|, info)
    ensures |r| == |dst|
  {
    var luma := CopyRows(dst, 0, info.dstStride, src, 0, info.srcStride, info.width, info.height);
    CopyRows(luma, info.dstPlane1, info.dstStride, src, info.srcPlane1, info.srcStride, info.srcStride,
             info.height / 2)
  }

  method CopySourceToDestination(src: array?<byte>, dst: array?<byte>, info: CopyInfo)
    returns (status: int)
    requires src != null && dst != null ==> src != dst && Room(src.Length, dst.Length, info)
    modifies if src == null || dst == null then {} else {dst}
    ensures status == if src == null || dst == null then FAILURE else 0
    ensures status == 0 ==> dst[..] == Copied(old(dst[..]), src[..], info)
  {
    if src == null || dst == null {
      return FAILURE;
    }
    CopyPlane(dst, 0, info.dstStride, src, 0, info.srcStride, info.width, info.height);
    CopyPlane(dst, info.dstPlane1, info.dstStride, src, info.srcPlane1, info.srcStride, info.srcStride,
              info.height / 2);
    status := 0;
  }

  /** The chroma rows never reach back into the luma rows. */
  predicate LumaFirst(info: CopyInfo) {
    && info.width <= info.dstStride
    && (info.height > 0 ==> RowStart(0, info.dstStride, info.height - 1) + info.width <= info.dstPlane1)
  }

  lemma Plane1AfterLuma(format: Format, w: nat, stride: nat, h: nat)
    requires w <= stride && h > 0
    ensures RowStart(0, stride, h - 1) + w <= Plane1Offset(format, stride, h)
  {
    RowStartIsTimes(0, stride, h - 1);
  }

  lemma LayoutIsLumaFirst(format: Format, w: nat, h: nat, srcStride: nat, srcPlane1: nat, stride: nat)
    requires w <= stride
    ensures LumaFirst(CopyInfo(w, h, srcStride, stride, srcPlane1, Plane1Offset(format, stride, h)))
  {
    if h > 0 {
      Plane1AfterLuma(format, w, stride, h);
    }
  }

  lemma InfosAreLumaFirst(format: Format, handleWidth: nat, w: nat, h: nat)
    ensures LumaFirst(ToAndroidInfo(format, w, h)) && LumaFirst(ToC2dInfo(format, handleWidth, w, h))
  {
    var back, there := ToAndroidInfo(format, w, h), ToC2dInfo(format, handleWidth, w, h);
    LayoutIsLumaFirst(format, w, h, back.srcStride, back.srcPlane1, back.dstStride);
    LayoutIsLumaFirst(format, w, h, there.srcStride, there.srcPlane1, there.dstStride);
  }

  /** Byte (r, x) of the visible luma after a copy. */
  lemma LumaCopied(dst: seq<byte>, src: seq<byte>, info: CopyInfo, r: nat, x: nat)
    requires Room(|src|, |dst|, info) && LumaFirst(info) && r < info.height && x < info.width
    ensures RowStart(0, info.dstStride, r) + x < |dst| && RowStart(0, info.srcStride, r) + x < |src|
    ensures Copied(dst, src, info)[RowStart(0, info.dstStride, r) + x]
         == src[RowStart(0, info.srcStride, r) + x]
  {
    var luma := CopyRows(dst, 0, info.dstStride, src, 0, info.srcStride, info.width, info.height);
    var k := RowStart(0, info.dstStride, r) + x;
    CopyRowsAt(dst, 0, info.dstStride, src, 0, info.srcStride, info.width, info.height, r, x);
    assert k < info.dstPlane1 by {
      RowStartMono(0, info.dstStride, r, info.height - 1);
    }
    assert Copied(dst, src, info)[k] == luma[k] by {
      CopyRowsOutside(luma, info.dstPlane1, info.dstStride, src, info.srcPlane1, info.srcStride,
                      info.srcStride, info.height / 2, k);
    }
  }

  /** Byte (r, x) of the chroma plane after a copy, for every column both layouts have. */
  lemma ChromaCopied(dst: seq<byte>, src: seq<byte>, info: CopyInfo, r: nat, x: nat)
    requires Room(|src|, |dst|, info)
    requires r < info.height / 2 && x < info.srcStride && x < info.dstStride
    ensures RowStart(info.dstPlane1, info.dstStride, r) + x < |dst|
    ensures RowStart(info.srcPlane1, info.srcStride, r) + x < |src|
    ensures Copied(dst, src, info)[RowStart(info.dstPlane1, info.dstStride, r) + x]
         == src[RowStart(info.srcPlane1, info.srcStride, r) + x]
  {
    var luma := CopyRows(dst, 0, info.dstStride, src, 0, info.srcStride, info.width, info.height);
    CopyRowsAt(luma, info.dstPlane1, info.dstStride, src, info.srcPlane1, info.srcStride,
               info.srcStride, info.height / 2, r, x);
  }

  /** A copy and the copy that undoes it: the second reads the layout the first wrote. */
  predicate Inverse(there: CopyInfo, back: CopyInfo) {
    && LumaFirst(there) && LumaFirst(back)
    && there.width == back.width && there.height == back.height
    && there.srcStride == back.dstStride <= there.dstStride == back.srcStride
    && there.srcPlane1 == back.dstPlane1 && there.dstPlane1 == back.srcPlane1
  }

  lemma ConversionsAreInverse(format: Format, handleWidth: nat, w: nat, h: nat)
    requires AlignUp(handleWidth, 16) == AlignUp(w, 16)
    ensures Inverse(ToC2dInfo(format, handleWidth, w, h), ToAndroidInfo(format, w, h))
  {
    InfosAreLumaFirst(format, handleWidth, w, h);
    NarrowerStride(w);
  }

  lemma NarrowerStride(w: nat)
    ensures AlignUp(w, 16) <= AlignUp(w, 32)
  {
  }

  /** Byte (r, x) of one plane, in its layout, is byte (r, x) of the other. */
  predicate CarriedAt(src: seq<byte>, sOff: nat, sStride: nat, dst: seq<byte>, dOff: nat, dStride: nat, r: nat, x: nat) {
    var j, k := RowStart(sOff, sStride, r) + x, RowStart(dOff, dStride, r) + x;
    j < |src| && k < |dst| && dst[k] == src[j]
  }

  ghost predicate Carried(src: seq<byte>, sOff: nat, sStride: nat, dst: seq<byte>, dOff: nat, dStride: nat,
                          rows: nat, cols: nat) {
    forall r: nat, x: nat :: r < rows && x < cols ==> CarriedAt(src, sOff, sStride, dst, dOff, dStride, r, x)
  }

  lemma LumaCarried(dst: seq<byte>, src: seq<byte>, info: CopyInfo)
    requires Room(|src|, |dst|, info) && LumaFirst(info)
    ensures Carried(src, 0, info.srcStride, Copied(dst, src, info), 0, info.dstStride, info.height, info.width)
  {
    forall r: nat, x: nat | r < info.height && x < info.width
      ensures CarriedAt(src, 0, info.srcStride, Copied(dst, src, info), 0, info.dstStride, r, x)
    {
      LumaCopied(dst, src, info, r, x);
    }
  }

  lemma ChromaCarried(dst: seq<byte>, src: seq<byte>, info: CopyInfo, cols: nat)
    requires Room(|src|, |dst|, info) && cols <= info.srcStride && cols <= info.dstStride
    ensures Carried(src, info.srcPlane1, info.srcStride, Copied(dst, src, info), info.dstPlane1, info.dstStride,
                    info.height / 2, cols)
  {
    forall r: nat, x: nat | r < info.height / 2 && x < cols
      ensures CarriedAt(src, info.srcPlane1, info.srcStride, Copied(dst, src, info), info.dstPlane1, info.dstStride, r, x)
    {
      ChromaCopied(dst, src, info, r, x);
    }
  }

  // ---------------------------------------------------------------------------------------------
  // The two layouts, apart from the code that computes them
  // ---------------------------------------------------------------------------------------------

  /** A stride, and where the chroma plane starts. */
  datatype Layout = Layout(stride: nat, chroma: nat)

  /** Rows as wide as the least multiple of `a` that holds the width; chroma after `h` such rows, for the
      encodeable format at the next multiple of 2048. */
  ghost predicate HasLayout(format: Format, a: nat, w: nat, h: nat, l: Layout) {
    && LeastMultiple(l.stride, a, w)
    && if format == NV12Encodeable then LeastMultiple(l.chroma, 2048, l.stride * h) else l.chroma == l.stride * h
  }

  /** The strides and offsets that are computed are those of this layout, and of no other. */
  lemma LayoutIff(format: Format, a: nat, w: nat, h: nat, l: Layout)
    requires a > 0
    ensures HasLayout(format, a, w, h, l) <==>
            l.stride == AlignUp(w, a) && l.chroma == Plane1Offset(format, AlignUp(w, a), h)
  {
    LeastMultipleIsAlignUp(l.stride, a, w);
    LeastMultipleIsAlignUp(l.chroma, 2048, l.stride * h);
    TimesIsProduct(l.stride, h);
  }

  /** Visible luma, and every chroma byte that both rows have, go from one layout to the other. */
  ghost predicate CarriesImage(src: seq<byte>, from: Layout, dst: seq<byte>, to: Layout, w: nat, h: nat) {
    && Carried(src, 0, from.stride, dst, 0, to.stride, h, w)
    && Carried(src, from.chroma, from.stride, dst, to.chroma, to.stride, h / 2,
               if from.stride < to.stride then from.stride else to.stride)
  }

  lemma CopiedCarriesImage(dst: seq<byte>, src: seq<byte>, info: CopyInfo)
    requires Room(|src|, |dst|, info) && LumaFirst(info)
    ensures CarriesImage(src, Layout(info.srcStride, info.srcPlane1), Copied(dst, src, info),
                         Layout(info.dstStride, info.dstPlane1), info.width, info.height)
  {
    LumaCarried(dst, src, info);
    ChromaCarried(dst, src, info, if info.srcStride < info.dstStride then info.srcStride else info.dstStride);
  }

  /** From rows of the least multiple of 32 to rows of the least multiple of 16. */
  method C2dToAndroid(src: array?<byte>, dst: array?<byte>, format: Format, w: nat, h: nat)
    returns (status: int)
    requires src != null && dst != null && format != Other ==>
               src != dst && Room(src.Length, dst.Length, ToAndroidInfo(format, w, h))
    modifies if src == null || dst == null || format == Other then {} else {dst}
    ensures status == if src == null || dst == null || format == Other then FAILURE else SUCCESS
    ensures status == SUCCESS ==> dst[..] == Copied(old(dst[..]), src[..], ToAndroidInfo(format, w, h))
    ensures status == SUCCESS ==>
              forall from, to :: HasLayout(format, 32, w, h, from) && HasLayout(format, 16, w, h, to) ==>
                CarriesImage(src[..], from, dst[..], to, w, h)
  {
    if format == Other {
      return FAILURE;
    }
    var info := ToAndroidInfo(format, w, h);
    ghost var was := if dst == null then [] else dst[..];
    status := CopySourceToDestination(src, dst, info);
    if status == SUCCESS {
      InfosAreLumaFirst(format, w, w, h);
      CopiedCarriesImage(was, src[..], info);
      OnlyLayouts(format, 32, w, 16, w, h);
    }
  }

  /** From rows of the least multiple of 16 that holds the handle's width to rows of the least multiple of
      32. */
  method AndroidToC2d(src: array?<byte>, dst: array?<byte>, format: Format, handleWidth: nat, w: nat, h: nat)
    returns (status: int)
    requires src != null && dst != null && format != Other ==>
               src != dst && Room(src.Length, dst.Length, ToC2dInfo(format, handleWidth, w, h))
    modifies if src == null || dst == null || format == Other then {} else {dst}
    ensures status == if src == null || dst == null || format == Other then FAILURE else SUCCESS
    ensures status == SUCCESS ==>
              dst[..] == Copied(old(dst[..]), src[..], ToC2dInfo(format, handleWidth, w, h))
    ensures status == SUCCESS ==>
              forall from, to :: HasLayout(format, 16, handleWidth, h, from) && HasLayout(format, 32, w, h, to) ==>
                CarriesImage(src[..], from, dst[..], to, w, h)
  {
    if format == Other {
      return FAILURE;
    }
    var info := ToC2dInfo(format, handleWidth, w, h);
    ghost var was := if dst == null then [] else dst[..];
    status := CopySourceToDestination(src, dst, info);
    if status == SUCCESS {
      InfosAreLumaFirst(format, handleWidth, w, h);
      CopiedCarriesImage(was, src[..], info);
      OnlyLayouts(format, 16, handleWidth, 32, w, h);
    }
  }

  lemma OnlyLayouts(format: Format, a: nat, w: nat, a': nat, w': nat, h: nat)
    requires a > 0 && a' > 0
    ensures forall from, to :: HasLayout(format, a, w, h, from) && HasLayout(format, a', w', h, to) ==>
              && from == Layout(AlignUp(w, a), Plane1Offset(format, AlignUp(w, a), h))
              && to == Layout(AlignUp(w', a'), Plane1Offset(format, AlignUp(w', a'), h))
  {
    forall from, to | HasLayout(format, a, w, h, from) && HasLayout(format, a', w', h, to)
      ensures from == Layout(AlignUp(w, a), Plane1Offset(format, AlignUp(w, a), h))
      ensures to == Layout(AlignUp(w', a'), Plane1Offset(format, AlignUp(w', a'), h))
    {
      LayoutIff(format, a, w, h, from);
      LayoutIff(format, a', w', h, to);
    }
  }

  /** The chroma of the two other formats starts where the plane information of the allocator puts it. */
  lemma ChromaWhereAllocated(w: nat, h: nat, l: Layout)
    requires HasLayout(YCbCr420SP, 16, w, h, l) && l.chroma < TWO_32
    ensures PlaneLayout.PlaneInfo(GrallocLayout.YCbCr420SP, l.stride, h).cb == l.chroma
    ensures PlaneLayout.PlaneInfo(GrallocLayout.YCrCb420SP, l.stride, h).cr == l.chroma
    ensures h > 0 ==> PlaneLayout.PlaneInfo(GrallocLayout.YCbCr420SP, l.stride, h).yStride == l.stride
  {
    TimesIsProduct(l.stride, h);
    assert Times(l.stride, 1) == l.stride;
    if h > 0 {
      MulMono(l.stride, 1, h);
    } else {
      assert Times(PlaneLayout.PlaneInfo(GrallocLayout.YCbCr420SP, l.stride, h).yStride, h) == 0;
    }
  }

  lemma CarriedThereAndBack(a: seq<byte>, b: seq<byte>, c: seq<byte>, aOff: nat, aStride: nat, bOff: nat, bStride: nat,
                            rows: nat, cols: nat)
    requires Carried(a, aOff, aStride, b, bOff, bStride, rows, cols)
    requires Carried(b, bOff, bStride, c, aOff, aStride, rows, cols)
    ensures Carried(a, aOff, aStride, c, aOff, aStride, rows, cols)
  {
    forall r: nat, x: nat | r < rows && x < cols
      ensures CarriedAt(a, aOff, aStride, c, aOff, aStride, r, x)
    {
      assert CarriedAt(a, aOff, aStride, b, bOff, bStride, r, x);
      assert CarriedAt(b, bOff, bStride, c, aOff, aStride, r, x);
    }
  }

  /** There and back, through any temporary buffer and into any destination: every visible luma byte
      comes back unchanged. */
  lemma LumaRoundTrip(android: seq<byte>, temp: seq<byte>, c2d: seq<byte>, result: seq<byte>,
                      final: seq<byte>, there: CopyInfo, back: CopyInfo)
    requires Inverse(there, back)
    requires Room(|android|, |temp|, there) && c2d == Copied(temp, android, there)
    requires Room(|c2d|, |result|, back) && final == Copied(result, c2d, back)
    ensures Carried(android, 0, back.dstStride, final, 0, back.dstStride, back.height, back.width)
  {
    LumaCarried(temp, android, there);
    LumaCarried(result, c2d, back);
    CarriedThereAndBack(android, c2d, final, 0, back.dstStride, 0, back.srcStride, back.height, back.width);
  }

  /** So does every chroma byte inside the narrower stride, although each chroma row on the way back
      overruns its own. */
  lemma ChromaRoundTrip(android: seq<byte>, temp: seq<byte>, c2d: seq<byte>, result: seq<byte>,
                        final: seq<byte>, there: CopyInfo, back: CopyInfo)
    requires Inverse(there, back)
    requires Room(|android|, |temp|, there) && c2d == Copied(temp, android, there)
    requires Room(|c2d|, |result|, back) && final == Copied(result, c2d, back)
    ensures Carried(android, back.dstPlane1, back.dstStride, final, back.dstPlane1, back.dstStride, back.height / 2,
                    back.dstStride)
  {
    ChromaCarried(temp, android, there, back.dstStride);
    ChromaCarried(result, c2d, back, back.dstStride);
    CarriedThereAndBack(android, c2d, final, back.dstPlane1, back.dstStride, back.srcPlane1, back.srcStride,
                        back.height / 2, back.dstStride);
  }

  // ---------------------------------------------------------------------------------------------
  // Buffers as they are allocated
  // ---------------------------------------------------------------------------------------------

  /** The size of the temporary C2D buffer. */
  function C2dBufferSize(format: Format, w: nat, h: nat): nat {
    var s := AlignUp(w, 32);
    AlignUp(Plane1Offset(format, s, h) + 2 * Times(AlignUp(s / 2, 32), h / 2), 4096)
  }

  /** Room for the luma rows and for two chroma planes with rows of a multiple of 32, and less than a page
      more. */
  lemma C2dBufferSizeIs(format: Format, w: nat, h: nat)
    ensures var s := AlignUp(w, 32);
            var chroma := Times(AlignUp(s / 2, 32), h / 2);
            GrallocLayout.Tight(C2dBufferSize(format, w, h), Plane1Offset(format, s, h) + chroma + chroma)
  {
  }

  /** A plane of `rows` rows of which at least `n` bytes each are used. */
  lemma PlaneFits(len: nat, off: nat, stride: nat, n: nat, rows: nat)
    requires off + Times(stride, rows) + n <= len + stride
    ensures Fits(len, off, stride, n, rows)
  {
    if rows > 0 {
      RowStartIsTimes(off, stride, rows - 1);
    }
  }

  /** The C2D buffer holds both planes with its own stride. */
  lemma C2dPlanesFit(format: Format, w: nat, h: nat)
    ensures var s := AlignUp(w, 32);
            && Times(s, h) <= Plane1Offset(format, s, h)
            && Plane1Offset(format, s, h) + Times(s, h / 2) <= C2dBufferSize(format, w, h)
  {
    var s := AlignUp(w, 32);
    assert s <= 2 * AlignUp(s / 2, 32) by {
      AlignUpMultiple(w, 32);
    }
    TimesMonoLeft(s, 2 * AlignUp(s / 2, 32), h / 2);
    TimesTwice(AlignUp(s / 2, 32), h / 2);
  }

  /** An Android 4:2:0 buffer whose width is a multiple of 16: a whole number of pages that exceeds its
      samples leaves room for the bytes by which the last chroma row of the wider layout spills over. */
  lemma AndroidSpillFits(size: nat, w: nat, h: nat)
    requires w % 16 == 0 && size % 4096 == 0 && Times(w, h) + Times(w, h) / 2 + 1 <= size
    ensures Times(w, h) + Times(w, h / 2) + 16 <= size
  {
    var samples := Times(w, h) + Times(w, h / 2);
    assert samples < size by {
      HalfRows(w, h);
    }
    assert samples % 16 == 0 by {
      TimesMultiple(w, h, 16);
      TimesMultiple(w, h / 2, 16);
      AddMultiples(Times(w, h), Times(w, h / 2), 16);
    }
    MultipleOfDivisor(size, 4096, 16);
    MultiplesApart(samples, size, 16);
  }

  lemma HalfRows(w: nat, h: nat)
    ensures Times(w, h / 2) <= Times(w, h) / 2
  {
    TimesHalf(w, 2 * (h / 2));
    TimesMono(w, 2 * (h / 2), h);
  }

  /** An Android buffer that holds an image of any width: both planes with the 16-byte stride, and the bytes
      by which the last chroma row of the wider layout spills over. */
  predicate HoldsImage(format: Format, len: nat, w: nat, h: nat) {
    Plane1Offset(format, AlignUp(w, 16), h) + Times(AlignUp(w, 16), h / 2) + 16 <= len
  }

  /** Both conversions have room when the Android buffer holds the image and the temporary buffer has the
      size that is computed for it. */
  lemma ConversionsHaveRoom(format: Format, size: nat, w: nat, h: nat)
    requires HoldsImage(format, size, w, h)
    ensures Room(size, C2dBufferSize(format, w, h), ToC2dInfo(format, w, w, h))
    ensures Room(C2dBufferSize(format, w, h), size, ToAndroidInfo(format, w, h))
  {
    AlignedWidths(w);
    C2dPlanesFit(format, w, h);
    LumaBeforeChroma(format, AlignUp(w, 16), h);
    var there, back := ToC2dInfo(format, w, w, h), ToAndroidInfo(format, w, h);
    RoomBothWays(size, C2dBufferSize(format, w, h), there, back);
  }

  lemma LumaBeforeChroma(format: Format, stride: nat, h: nat)
    ensures Times(stride, h) <= Plane1Offset(format, stride, h)
  {
  }

  /** A narrow layout in `size` bytes with 16 to spare, and a wider one in `len` bytes. */
  lemma RoomBothWays(size: nat, len: nat, there: CopyInfo, back: CopyInfo)
    requires there == CopyInfo(back.width, back.height, back.dstStride, back.srcStride, back.dstPlane1, back.srcPlane1)
    requires back.width <= back.dstStride <= back.srcStride <= back.dstStride + 16
    requires Times(back.dstStride, back.height) <= back.dstPlane1
    requires Times(back.srcStride, back.height) <= back.srcPlane1
    requires back.dstPlane1 + Times(back.dstStride, back.height / 2) + 16 <= size
    requires back.srcPlane1 + Times(back.srcStride, back.height / 2) <= len
    ensures Room(size, len, there) && Room(len, size, back)
  {
    var w, h, a, s := back.width, back.height, back.dstStride, back.srcStride;
    PlaneFits(size, 0, a, w, h);
    PlaneFits(len, 0, s, w, h);
    PlaneFits(size, back.dstPlane1, a, a, h / 2);
    PlaneFits(len, back.srcPlane1, s, a, h / 2);
    PlaneFits(len, back.srcPlane1, s, s, h / 2);
    PlaneFits(size, back.dstPlane1, a, s, h / 2);
  }

  lemma AlignedWidths(w: nat)
    ensures w <= AlignUp(w, 16) <= AlignUp(w, 32) <= AlignUp(w, 16) + 16
  {
    var a, s := AlignUp(w, 16), AlignUp(w, 32);
    AlignUpMultiple(w, 16);
    AlignUpMultiple(w, 32);
    MultipleOfDivisor(s, 32, 16);
    NarrowerStride(w);
    if a + 16 < s {
      AddMultiples(a, 16, 16);
      MultiplesApart(a + 16, s, 16);
    }
  }

  /** A buffer allocated for either 4:2:0 format with `w` as its aligned width holds an image of every width
      that has this stride, unless its size wraps. */
  lemma AllocatedBufferHoldsImage(cfg: GrallocLayout.Config, info: GrallocLayout.BufferInfo, w: nat, h: nat,
                                  format: Format, width: nat)
    requires info.format.YCbCr420SP? || info.format.YCrCb420SP?
    requires !GrallocLayout.Rejected(info) && info.layers >= 1 && GrallocLayout.GetSize(cfg, info, w, h, false) < TWO_32
    requires format != NV12Encodeable && AlignUp(width, 16) == w
    ensures HoldsImage(format, GrallocLayout.GetSize(cfg, info, w, h, true), width, h)
  {
    var size := GrallocLayout.GetSize(cfg, info, w, h, true);
    GrallocLayout.SizeIsPageMultiple(cfg, info, w, h, true);
    GrallocLayout.SizeNoWrap(cfg, info, w, h);
    AlignUpMultiple(width, 16);
    AndroidSpillFits(size, w, h);
  }

  /** Both copies, one after the other. */
  method Detour(android: array<byte>, temp: array<byte>, result: array<byte>, format: Format, handleWidth: nat, w: nat,
                h: nat)
    returns (status: int, ghost c2d: seq<byte>)
    requires format != Other && AlignUp(handleWidth, 16) == AlignUp(w, 16)
    requires android != temp && temp != result && android != result
    requires Room(android.Length, temp.Length, ToC2dInfo(format, w, w, h))
    requires Room(temp.Length, result.Length, ToAndroidInfo(format, w, h))
    modifies temp, result
    ensures status == SUCCESS && c2d == Copied(old(temp[..]), android[..], ToC2dInfo(format, w, w, h))
    ensures result[..] == Copied(old(result[..]), c2d, ToAndroidInfo(format, w, h))
  {
    assert ToC2dInfo(format, handleWidth, w, h) == ToC2dInfo(format, w, w, h);
    status := AndroidToC2d(android, temp, format, handleWidth, w, h);
    c2d := temp[..];
    status := C2dToAndroid(temp, result, format, w, h);
  }

  /** The whole detour of an unaligned destination: to the temporary buffer and back, for every supported
      format, every width, and every handle width with the same stride. Every visible luma byte and every
      chroma byte within the stride arrives as it was. */
  method ThereAndBack(android: array<byte>, result: array<byte>, format: Format, handleWidth: nat, w: nat, h: nat)
    returns (status: int)
    requires format != Other && android != result && AlignUp(handleWidth, 16) == AlignUp(w, 16)
    requires HoldsImage(format, android.Length, w, h) && HoldsImage(format, result.Length, w, h)
    modifies result
    ensures status == SUCCESS && Returned(android[..], result[..], format, w, h)
  {
    ConversionsHaveRoom(format, android.Length, w, h);
    ConversionsHaveRoom(format, result.Length, w, h);
    var temp := new byte[C2dBufferSize(format, w, h)];
    ghost var blank, was, c2d := temp[..], result[..], [];
    status, c2d := Detour(android, temp, result, format, handleWidth, w, h);
    ImageReturns(android[..], blank, c2d, was, result[..], format, w, h);
  }

  /** The visible luma bytes and the chroma bytes within the stride are the same. */
  ghost predicate Returned(before: seq<byte>, after: seq<byte>, format: Format, w: nat, h: nat) {
    var a := AlignUp(w, 16);
    var plane1 := Plane1Offset(format, a, h);
    Carried(before, 0, a, after, 0, a, h, w) && Carried(before, plane1, a, after, plane1, a, h / 2, a)
  }

  lemma ImageReturns(android: seq<byte>, temp: seq<byte>, c2d: seq<byte>, was: seq<byte>, final: seq<byte>,
                     format: Format, w: nat, h: nat)
    requires Room(|android|, |temp|, ToC2dInfo(format, w, w, h))
    requires c2d == Copied(temp, android, ToC2dInfo(format, w, w, h))
    requires Room(|c2d|, |was|, ToAndroidInfo(format, w, h)) && final == Copied(was, c2d, ToAndroidInfo(format, w, h))
    ensures Returned(android, final, format, w, h)
  {
    var there, back := ToC2dInfo(format, w, w, h), ToAndroidInfo(format, w, h);
    assert Inverse(there, back) by {
      ConversionsAreInverse(format, w, w, h);
    }
    LumaRoundTrip(android, temp, c2d, was, final, there, back);
    ChromaRoundTrip(android, temp, c2d, was, final, there, back);
  }
}
