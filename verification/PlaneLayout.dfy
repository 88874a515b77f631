/** Where the planes of a linear YUV buffer lie, and that they fit the size it was allocated with. */
module PlaneLayout {
  import opened Alignment
  import opened GrallocLayout
  import opened Rows

  /** Plane addresses relative to the base of the buffer, strides, and the distance between two chroma
      samples of one component. */
  datatype Planes = Planes(y: nat, cb: nat, cr: nat, yStride: nat, cStride: nat, chromaStep: nat)

  /** The formats with three components in separate or interleaved planes. */
  predicate HasPlanes(f: Format) {
    f.YV12? || f.YCbCr420SP? || f.YCrCb420SP? || f.YCrCb420SPAdreno? || f.P010? || f.YCbCr422SP? || f.YCrCb422SP?
    || f.Nv21Zsl?
  }

  predicate CrFirst(f: Format) {
    f.YCrCb420SP? || f.YCrCb420SPAdreno? || f.YCrCb422SP? || f.Nv21Zsl?
  }

  function SampleBytes(f: Format): nat {
    if f.P010? then 2 else 1
  }

  /** Bytes of a row of luma. */
  function RowBytes(f: Format, w: nat): nat {
    if f.P010? then 2 * w else w
  }

  function SemiPlanar(w: nat, h: nat, bpp: nat): Planes {
    var stride := U32(Times(w, bpp), true);
    var chroma := U32(Times(stride, h), true);
    Planes(0, chroma, chroma + 1, stride, stride, 2 * bpp)
  }

  function PlaneInfo(f: Format, w: nat, h: nat): Planes
    requires HasPlanes(f)
  {
    if f.YV12? then
      var cStride := AlignUp(w / 2, 16);
      var luma := U32(Times(w, h), true);
      Planes(0, luma + U32(Times(cStride, h), true) / 2, luma, w, cStride, 1)
    else
      var p := SemiPlanar(w, h, SampleBytes(f));
      if CrFirst(f) then p.(cb := p.cr, cr := p.cb) else p
  }

  // ---------------------------------------------------------------------------------------------
  // Samples
  // ---------------------------------------------------------------------------------------------

  datatype Sample = Y(row: nat, col: nat) | Cb(row: nat, col: nat) | Cr(row: nat, col: nat)

  function ChromaRows(f: Format, h: nat): nat {
    if f.YCbCr422SP? || f.YCrCb422SP? then h else h / 2
  }

  predicate InImage(f: Format, w: nat, h: nat, s: Sample) {
    match s
    case Y(r, c) => r < h && c < w
    case Cb(r, c) => r < ChromaRows(f, h) && c < w / 2
    case Cr(r, c) => r < ChromaRows(f, h) && c < w / 2
  }

  /** The first byte of a sample, as a client finds it from the plane information. */
  function Offset(f: Format, p: Planes, s: Sample): nat {
    match s
    case Y(r, c) => RowStart(p.y, p.yStride, r) + RowBytes(f, c)
    case Cb(r, c) => RowStart(p.cb, p.cStride, r) + Times(p.chromaStep, c)
    case Cr(r, c) => RowStart(p.cr, p.cStride, r) + Times(p.chromaStep, c)
  }

  // ---------------------------------------------------------------------------------------------
  // The shape of a layout
  // ---------------------------------------------------------------------------------------------

  /** Where the chroma starts. */
  function LumaEnd(f: Format, w: nat, h: nat): nat {
    RowStart(0, RowBytes(f, w), h)
  }

  /** One past the last byte of the last plane. */
  function End(f: Format, w: nat, h: nat): nat {
    if f.YV12? then RowStart(CbStart(w, h), AlignUp(w / 2, 16), h / 2)
    else RowStart(LumaEnd(f, w, h), RowBytes(f, w), ChromaRows(f, h))
  }

  /** Where the second chroma plane of the planar format starts. */
  function CbStart(w: nat, h: nat): nat {
    RowStart(LumaEnd(YV12, w, h), AlignUp(w / 2, 16), h / 2)
  }

  /** Semi-planar: the chroma of both components starts where luma ends, one byte apart. */
  predicate Interleaved(f: Format, p: Planes, w: nat, h: nat) {
    && p.y == 0 && p.yStride == p.cStride == RowBytes(f, w) && p.chromaStep == 2 * SampleBytes(f)
    && (if CrFirst(f) then p.cr == LumaEnd(f, w, h) && p.cb == p.cr + 1
        else p.cb == LumaEnd(f, w, h) && p.cr == p.cb + 1)
  }

  /** Planar: Cr follows luma and Cb follows Cr. */
  predicate Separated(p: Planes, w: nat, h: nat) {
    && p.y == 0 && p.yStride == w && p.cStride == AlignUp(w / 2, 16) && p.chromaStep == 1
    && p.cr == LumaEnd(YV12, w, h) && p.cb == CbStart(w, h)
  }

  predicate Shaped(f: Format, p: Planes, w: nat, h: nat) {
    if f.YV12? then Separated(p, w, h) else Interleaved(f, p, w, h)
  }

  lemma PlaneShape(f: Format, w: nat, h: nat)
    requires HasPlanes(f) && h % 2 == 0 && 0 < h && End(f, w, h) < TWO_32
    ensures Shaped(f, PlaneInfo(f, w, h), w, h)
  {
    if f.YV12? {
      SeparatedShape(w, h);
    } else {
      InterleavedShape(f, w, h);
    }
  }

  lemma InterleavedShape(f: Format, w: nat, h: nat)
    requires HasPlanes(f) && !f.YV12? && 0 < h && LumaEnd(f, w, h) < TWO_32
    ensures Interleaved(f, PlaneInfo(f, w, h), w, h)
  {
    var stride := RowBytes(f, w);
    RowStartMono(0, stride, 0, h);
    RowStartIsTimes(0, stride, h);
    assert Times(w, 1) == w;
    assert Times(w, 2) == 2 * w;
  }

  lemma SeparatedShape(w: nat, h: nat)
    requires h % 2 == 0 && End(YV12, w, h) < TWO_32
    ensures Separated(PlaneInfo(YV12, w, h), w, h)
  {
    var c := AlignUp(w / 2, 16);
    RowStartIsTimes(0, w, h);
    RowStartIsTimes(LumaEnd(YV12, w, h), c, h / 2);
    RowStartIsTimes(CbStart(w, h), c, h / 2);
    TimesHalf(c, h);
  }

  // ---------------------------------------------------------------------------------------------
  // Samples stay inside
  // ---------------------------------------------------------------------------------------------

  lemma LumaFits(f: Format, p: Planes, w: nat, h: nat, r: nat, c: nat)
    requires Shaped(f, p, w, h) && r < h && c < w
    ensures Offset(f, p, Y(r, c)) + SampleBytes(f) <= LumaEnd(f, w, h)
  {
    RowStartMono(0, p.yStride, r, h);
  }

  /** Luma bytes come before chroma bytes, and all of them before the end. */
  lemma SampleBeforeEnd(f: Format, p: Planes, w: nat, h: nat, s: Sample)
    requires HasPlanes(f) && Shaped(f, p, w, h) && w % 2 == 0 && InImage(f, w, h, s)
    ensures s.Y? ==> Offset(f, p, s) + SampleBytes(f) <= LumaEnd(f, w, h) <= End(f, w, h)
    ensures !s.Y? ==> LumaEnd(f, w, h) <= Offset(f, p, s) <= End(f, w, h) - SampleBytes(f)
  {
    if s.Y? {
      LumaFits(f, p, w, h, s.row, s.col);
    } else if f.YV12? {
      TimesSmall(s.col);
      RowStartMono(p.cr, p.cStride, s.row, h / 2);
      RowStartMono(p.cb, p.cStride, s.row, h / 2);
    } else {
      InterleavedFits(f, p, w, h, s);
    }
  }

  lemma ColumnFits(f: Format, w: nat, c: nat)
    requires w % 2 == 0 && c < w / 2
    ensures Times(2 * SampleBytes(f), c) + 1 + SampleBytes(f) <= RowBytes(f, w)
  {
    TimesSmall(c);
  }

  lemma InterleavedFits(f: Format, p: Planes, w: nat, h: nat, s: Sample)
    requires HasPlanes(f) && !f.YV12? && Interleaved(f, p, w, h) && w % 2 == 0 && InImage(f, w, h, s) && !s.Y?
    ensures LumaEnd(f, w, h) <= Offset(f, p, s) <= End(f, w, h) - SampleBytes(f)
  {
    ColumnFits(f, w, s.col);
    InterleavedSpan(LumaEnd(f, w, h), p.cStride, ChromaRows(f, h), s.row, Times(p.chromaStep, s.col), SampleBytes(f));
  }

  /** A span of `b` bytes at `x`, or at the byte after, lies within the interleaved rows. */
  lemma InterleavedSpan(start: nat, stride: nat, rows: nat, r: nat, x: nat, b: nat)
    requires r < rows && x + 1 + b <= stride
    ensures start <= RowStart(start, stride, r) + x
    ensures RowStart(start, stride, r) + x + b <= RowStart(start, stride, rows)
    ensures RowStart(start + 1, stride, r) + x + b <= RowStart(start, stride, rows)
  {
    RowStartMono(start, stride, r, rows);
    RowStartShift(start, stride, r);
  }

  lemma {:induction false} RowStartShift(off: nat, stride: nat, r: nat)
    ensures RowStart(off + 1, stride, r) == RowStart(off, stride, r) + 1
  {
    if r > 0 {
      RowStartShift(off, stride, r - 1);
    }
  }

  // ---------------------------------------------------------------------------------------------
  // Samples do not share bytes
  // ---------------------------------------------------------------------------------------------

  /** The samples of one-byte formats lie on distinct bytes. */
  lemma OffsetsDistinct(f: Format, p: Planes, w: nat, h: nat, s: Sample, t: Sample)
    requires HasPlanes(f) && Shaped(f, p, w, h) && !f.P010? && w % 2 == 0
    requires InImage(f, w, h, s) && InImage(f, w, h, t) && s != t
    ensures Offset(f, p, s) != Offset(f, p, t)
  {
    if s.Y? != t.Y? {
      SampleBeforeEnd(f, p, w, h, s);
      SampleBeforeEnd(f, p, w, h, t);
    } else if s.Y? {
      RowPositionUnique(0, w, s.row, s.col, t.row, t.col);
    } else if f.YV12? {
      SeparatedDistinct(p, w, h, s, t);
    } else {
      InterleavedDistinct(f, p, w, h, s, t);
    }
  }

  lemma SeparatedDistinct(p: Planes, w: nat, h: nat, s: Sample, t: Sample)
    requires Separated(p, w, h) && InImage(YV12, w, h, s) && InImage(YV12, w, h, t) && s != t && !s.Y? && !t.Y?
    ensures Offset(YV12, p, s) != Offset(YV12, p, t)
  {
    TimesSmall(s.col);
    TimesSmall(t.col);
    if s.Cb? == t.Cb? {
      RowPositionUnique(if s.Cb? then p.cb else p.cr, p.cStride, s.row, s.col, t.row, t.col);
    } else {
      RowStartMono(p.cr, p.cStride, if s.Cr? then s.row else t.row, h / 2);
    }
  }

  lemma InterleavedDistinct(f: Format, p: Planes, w: nat, h: nat, s: Sample, t: Sample)
    requires !f.YV12? && !f.P010? && Interleaved(f, p, w, h) && w % 2 == 0
    requires InImage(f, w, h, s) && InImage(f, w, h, t) && s != t && !s.Y? && !t.Y?
    ensures Offset(f, p, s) != Offset(f, p, t)
  {
    var start := LumaEnd(f, w, h);
    TimesSmall(s.col);
    TimesSmall(t.col);
    if s.Cb? == t.Cb? {
      RowPositionUnique(if s.Cb? then p.cb else p.cr, w, s.row, 2 * s.col, t.row, 2 * t.col);
    } else {
      ParityApart(start, w, s.row, s.col, t.row, t.col);
      ParityApart(start, w, t.row, t.col, s.row, s.col);
    }
  }

  lemma ParityApart(start: nat, stride: nat, r: nat, c: nat, r': nat, c': nat)
    requires stride % 2 == 0
    ensures RowStart(start, stride, r) + 2 * c != RowStart(start + 1, stride, r') + 2 * c'
  {
    RowStartParity(start, stride, r);
    RowStartParity(start + 1, stride, r');
  }

  // ---------------------------------------------------------------------------------------------
  // Layout and size together
  // ---------------------------------------------------------------------------------------------

  /** The end of the planes is covered by the content that the size is computed from. */
  lemma EndWithinContent(cfg: Config, info: BufferInfo)
    requires ValidConfig(cfg) && HasPlanes(info.format) && info.width % 2 == 0 && info.height % 2 == 0
    ensures var (w, h) := AlignedDimensions(cfg, info);
            && w % 2 == 0 && h % 2 == 0
            && End(info.format, w, h) <= Content(info.format, info.width, Times(w, h), ChromaArea(info, w, h))
  {
    var f := info.format;
    var (w, h) := AlignedDimensions(cfg, info);
    AlignedEven(cfg, info);
    match f
    case YV12 => EndYV12(w, h);
    case P010 => EndP010(w, h);
    case YCbCr422SP | YCrCb422SP => EndInterleaved(f, w, h);
    case YCrCb420SPAdreno =>
      End420(f, w, h);
      AdrenoChroma(info.width, info.height);
    case _ => End420(f, w, h);
  }

  lemma AlignedEven(cfg: Config, info: BufferInfo)
    requires ValidConfig(cfg) && HasPlanes(info.format) && info.width % 2 == 0 && info.height % 2 == 0
    ensures AlignedDimensions(cfg, info).0 % 2 == 0 && AlignedDimensions(cfg, info).1 % 2 == 0
  {
    EvenAlign(info.width, cfg.gpuAlignment);
    EvenAlign(info.width, 16);
    EvenAlign(info.width, 32);
    EvenAlign(info.width, 64);
    EvenAlign(info.height, 32);
    EvenAlign(info.height, 64);
  }

  lemma EvenAlign(x: nat, a: nat)
    requires x % 2 == 0 && (a == 1 || (a > 0 && a % 2 == 0))
    ensures AlignUp(x, a) % 2 == 0
  {
    if a != 1 {
      AlignUpMultiple(x, a);
      MultipleOfDivisor(AlignUp(x, a), a, 2);
    }
  }

  lemma EndYV12(w: nat, h: nat)
    ensures End(YV12, w, h) == Times(w, h) + 2 * Times(AlignUp(w / 2, 16), h / 2)
  {
    var c := AlignUp(w / 2, 16);
    RowStartIsTimes(0, w, h);
    RowStartIsTimes(LumaEnd(YV12, w, h), c, h / 2);
    RowStartIsTimes(CbStart(w, h), c, h / 2);
  }

  lemma EndInterleaved(f: Format, w: nat, h: nat)
    requires HasPlanes(f) && !f.YV12?
    ensures End(f, w, h) == Times(RowBytes(f, w), h) + Times(RowBytes(f, w), ChromaRows(f, h))
  {
    RowStartIsTimes(0, RowBytes(f, w), h);
    RowStartIsTimes(LumaEnd(f, w, h), RowBytes(f, w), ChromaRows(f, h));
  }

  lemma EndP010(w: nat, h: nat)
    requires h % 2 == 0
    ensures End(P010, w, h) == 3 * Times(w, h)
  {
    EndInterleaved(P010, w, h);
    TimesTwice(w, h);
    TimesTwice(w, h / 2);
    TimesHalf(w, h);
  }

  lemma End420(f: Format, w: nat, h: nat)
    requires f.YCbCr420SP? || f.YCrCb420SP? || f.Nv21Zsl? || f.YCrCb420SPAdreno?
    requires h % 2 == 0
    ensures End(f, w, h) == Times(w, h) + Times(w, h / 2) == Times(w, h) + Times(w, h) / 2
  {
    EndInterleaved(f, w, h);
    TimesHalf(w, h);
  }

  /** The separately sized chroma of the Adreno format holds half the aligned luma. */
  lemma AdrenoChroma(width: nat, height: nat)
    requires width % 2 == 0 && height % 2 == 0
    ensures Times(AlignUp(width, 32), height / 2) <= 2 * Times(AlignUp(width / 2, 32), AlignUp(height / 2, 32))
  {
    var w, c, h := AlignUp(width, 32), AlignUp(width / 2, 32), AlignUp(height / 2, 32);
    assert w <= 2 * c by {
      AlignHalf(width);
    }
    TimesMono(w, height / 2, h);
    TimesMonoLeft(w, 2 * c, h);
    TimesTwice(c, h);
  }

  lemma AlignHalf(x: nat)
    requires x % 2 == 0
    ensures AlignUp(x, 32) <= 2 * AlignUp(x / 2, 32)
  {
    AlignUpMultiple(x / 2, 32);
    AlignUpLeast(x, 32, 2 * AlignUp(x / 2, 32));
  }

  /** A buffer with even dimensions whose size fits in 32 bits. */
  predicate Allocated(cfg: Config, info: BufferInfo) {
    && ValidConfig(cfg) && HasPlanes(info.format) && info.width % 2 == 0 && info.height % 2 == 0
    && info.layers >= 1 && !Rejected(info)
    && GetSize(cfg, info, AlignedDimensions(cfg, info).0, AlignedDimensions(cfg, info).1, false) < TWO_32
  }

  /** What a client computes from the plane information of the aligned dimensions. */
  function OffsetIn(cfg: Config, info: BufferInfo, s: Sample): nat
    requires Allocated(cfg, info)
  {
    var (w, h) := AlignedDimensions(cfg, info);
    Offset(info.format, PlaneInfo(info.format, w, h), s)
  }

  predicate SampleOf(cfg: Config, info: BufferInfo, s: Sample)
    requires Allocated(cfg, info)
  {
    var (w, h) := AlignedDimensions(cfg, info);
    InImage(info.format, w, h, s)
  }

  lemma LayoutIsShaped(cfg: Config, info: BufferInfo)
    requires Allocated(cfg, info) && AlignedDimensions(cfg, info).1 > 0
    ensures var (w, h) := AlignedDimensions(cfg, info);
            && w % 2 == 0 && Shaped(info.format, PlaneInfo(info.format, w, h), w, h)
            && End(info.format, w, h) <= GetSize(cfg, info, w, h, true)
  {
    var (w, h) := AlignedDimensions(cfg, info);
    EndWithinContent(cfg, info);
    SizeNoWrap(cfg, info, w, h);
    PlaneShape(info.format, w, h);
  }

  /** Every byte of every sample, padding included, lies inside the allocated size, and luma lies before
      chroma. */
  lemma SamplesInsideSize(cfg: Config, info: BufferInfo, s: Sample)
    requires Allocated(cfg, info) && SampleOf(cfg, info, s)
    ensures var (w, h) := AlignedDimensions(cfg, info);
            && OffsetIn(cfg, info, s) + SampleBytes(info.format) <= GetSize(cfg, info, w, h, true)
            && (s.Y? ==> OffsetIn(cfg, info, s) + SampleBytes(info.format) <= LumaEnd(info.format, w, h))
            && (!s.Y? ==> LumaEnd(info.format, w, h) <= OffsetIn(cfg, info, s))
  {
    var (w, h) := AlignedDimensions(cfg, info);
    LayoutIsShaped(cfg, info);
    SampleBeforeEnd(info.format, PlaneInfo(info.format, w, h), w, h, s);
  }

  predicate Apart(a: nat, b: nat, bytes: nat) {
    a + bytes <= b || b + bytes <= a
  }

  /** No two samples of a buffer share a byte. */
  ghost predicate NoSharedBytes(cfg: Config, info: BufferInfo)
    requires Allocated(cfg, info)
  {
    forall s, t :: SampleOf(cfg, info, s) && SampleOf(cfg, info, t) && s != t ==>
                     Apart(OffsetIn(cfg, info, s), OffsetIn(cfg, info, t), SampleBytes(info.format))
  }

  lemma OneByteSamplesApart(cfg: Config, info: BufferInfo, s: Sample, t: Sample)
    requires Allocated(cfg, info) && !info.format.P010?
    requires SampleOf(cfg, info, s) && SampleOf(cfg, info, t) && s != t
    ensures OffsetIn(cfg, info, s) != OffsetIn(cfg, info, t)
  {
    var (w, h) := AlignedDimensions(cfg, info);
    LayoutIsShaped(cfg, info);
    OffsetsDistinct(info.format, PlaneInfo(info.format, w, h), w, h, s, t);
  }

  /** In the two-byte format Cr is placed one byte after Cb as well, inside the Cb sample. */
  lemma P010ChromaOverlaps(cfg: Config, info: BufferInfo)
    requires Allocated(cfg, info) && info.format.P010? && info.width > 0 && info.height > 0
    ensures SampleOf(cfg, info, Cb(0, 0)) && SampleOf(cfg, info, Cr(0, 0))
    ensures OffsetIn(cfg, info, Cr(0, 0)) == OffsetIn(cfg, info, Cb(0, 0)) + 1
  {
    AlignedEven(cfg, info);
    LayoutIsShaped(cfg, info);
  }

  /** For every non-empty image, no two samples share a byte exactly when samples are one byte wide. */
  lemma NoSharedBytesIff(cfg: Config, info: BufferInfo)
    requires Allocated(cfg, info) && info.width > 0 && info.height > 0
    ensures NoSharedBytes(cfg, info) <==> SampleBytes(info.format) == 1
  {
    if info.format.P010? {
      P010ChromaOverlaps(cfg, info);
    } else {
      forall s, t | SampleOf(cfg, info, s) && SampleOf(cfg, info, t) && s != t
        ensures OffsetIn(cfg, info, s) != OffsetIn(cfg, info, t)
      {
        OneByteSamplesApart(cfg, info, s, t);
      }
    }
  }

  // ---------------------------------------------------------------------------------------------
  // The planes format by format
  // ---------------------------------------------------------------------------------------------

  /** Bytes of interleaved pairs start at `chroma`, `step` apart; the component named first comes first. */
  predicate Pairs(p: Planes, stride: nat, chroma: nat, step: nat, crFirst: bool) {
    && p.y == 0 && p.yStride == p.cStride == stride && p.chromaStep == step
    && (if crFirst then p.cr == chroma && p.cb == chroma + 1 else p.cb == chroma && p.cr == chroma + 1)
  }

  /** Where the planes of each format are, in plain numbers: Cb before Cr where the format is named so, Cr
      before Cb otherwise; two bytes to a sample of the 10-bit format; Cr plane before Cb plane for YV12. */
  lemma PlanesByFormat(w: nat, h: nat)
    requires 0 < h && h % 2 == 0 && 2 * w * h < TWO_32 && AlignUp(w / 2, 16) * h < TWO_32
    ensures Pairs(PlaneInfo(YCbCr420SP, w, h), w, w * h, 2, false)
    ensures Pairs(PlaneInfo(YCbCr422SP, w, h), w, w * h, 2, false)
    ensures Pairs(PlaneInfo(YCrCb420SP, w, h), w, w * h, 2, true)
    ensures Pairs(PlaneInfo(YCrCb422SP, w, h), w, w * h, 2, true)
    ensures Pairs(PlaneInfo(YCrCb420SPAdreno, w, h), w, w * h, 2, true)
    ensures Pairs(PlaneInfo(Nv21Zsl, w, h), w, w * h, 2, true)
    ensures Pairs(PlaneInfo(P010, w, h), 2 * w, 2 * w * h, 4, false)
    ensures var p, c := PlaneInfo(YV12, w, h), AlignUp(w / 2, 16);
            p == Planes(0, w * h + c * h / 2, w * h, w, c, 1)
  {
    OneRow(w, h);
    TimesIsProduct(w, h);
    TimesIsProduct(2 * w, h);
    TimesIsProduct(AlignUp(w / 2, 16), h);
    assert Times(w, 1) == w;
    assert Times(w, 2) == 2 * w;
  }

  lemma OneRow(w: nat, h: nat)
    requires 0 < h && 2 * w * h < TWO_32
    ensures 2 * w < TWO_32 && w * h < TWO_32
  {
    MulMono(2 * w, 1, h);
    assert 2 * w * h == 2 * (w * h);
  }

  /** How many chroma rows there are: one for each row of luma in the 4:2:2 formats, for every two otherwise. */
  lemma ChromaRowsByFormat(h: nat, s: Sample, w: nat)
    requires (s.Cb? || s.Cr?) && s.col < w / 2
    ensures InImage(YCbCr422SP, w, h, s) <==> s.row < h
    ensures InImage(YCrCb422SP, w, h, s) <==> s.row < h
    ensures forall f :: f in [YCbCr420SP, YCrCb420SP, YCrCb420SPAdreno, P010, Nv21Zsl, YV12] ==>
              HasPlanes(f) && (InImage(f, w, h, s) <==> s.row < h / 2)
  {
  }

  /** The offsets are computed in 32 bits: they are the exact ones if and only if they fit. */
  lemma OffsetsExactIff(w: nat, h: nat)
    requires w < TWO_32 / 2
    ensures PlaneInfo(YCbCr420SP, w, h).cb == Times(w, h) <==> Times(w, h) < TWO_32
    ensures PlaneInfo(P010, w, h).cb == Times(2 * w, h) <==> Times(2 * w, h) < TWO_32
    ensures PlaneInfo(YV12, w, h).cr == Times(w, h) <==> Times(w, h) < TWO_32
  {
    TimesIsProduct(w, 1);
    TimesIsProduct(w, 2);
    WrapsIff(Times(w, h));
    WrapsIff(Times(2 * w, h));
  }

  lemma WrapsIff(x: nat)
    ensures U32(x, true) == x <==> x < TWO_32
  {
  }

  /** The Cb plane of YV12 lies half the rows of its stride behind Cr if and only if their bytes fit. */
  lemma CbExactIff(w: nat, h: nat)
    ensures var p, rows := PlaneInfo(YV12, w, h), Times(AlignUp(w / 2, 16), h);
            p.cb - p.cr == rows / 2 <==> rows < TWO_32
  {
    var rows := Times(AlignUp(w / 2, 16), h);
    assert rows % 2 == 0 by {
      AlignUpMultiple(w / 2, 16);
      TimesMultiple(AlignUp(w / 2, 16), h, 16);
      MultipleOfDivisor(rows, 16, 2);
    }
    HalfWraps(rows);
  }

  lemma HalfWraps(x: nat)
    requires x % 2 == 0
    ensures U32(x, true) / 2 == x / 2 <==> x < TWO_32
  {
  }

  /** Rows whose bytes do not fit in 32 bits get a stride that is too short. */
  lemma StrideExactIff(w: nat, h: nat)
    ensures PlaneInfo(P010, w, h).yStride == 2 * w <==> 2 * w < TWO_32
  {
    TimesIsProduct(w, 2);
    WrapsIff(2 * w);
  }
}
