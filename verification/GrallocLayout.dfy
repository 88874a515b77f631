/** Sizes and plane layouts of linear gralloc buffers. Arithmetic that the source does in 32-bit unsigned
    integers takes a flag `wrap`; with the flag off, the same formula is over unbounded integers.
 */
module GrallocLayout {
  import opened Alignment
  import opened Rows

  const PAGE: nat := 4096
  const SIZE_4K: nat := 4096
  const SIZE_8K: nat := 4096  // the value the source gives it
  const SZ_1M: nat := 0x10_0000
  const SZ_2M: nat := 0x20_0000
  const TILED_ALIGN: nat := 8192

  datatype Format =
    | Rgb(bpp: nat)
    | YV12 | YCbCr420SP | YCrCb420SP | YCrCb420SPAdreno | YCbCr420SPTiled | P010
    | YCbCr422SP | YCrCb422SP | YCbCr422I | YCrCb422I | CbYCrY422I | Nv21Zsl
    | Raw16 | Y16 | Raw12 | Raw10 | Raw8 | Y8 | Blob | RawOpaque | Unknown

  /** The usage bits that matter here. */
  datatype Usage = Usage(mipmap: bool, cubeMap: bool, isProtected: bool, cameraOutput: bool, secureDisplay: bool)

  datatype BufferInfo = BufferInfo(width: nat, height: nat, format: Format, layers: nat, usage: Usage)

  /** Build options, and the alignment the GPU library asks for (1 when it cannot be asked). */
  datatype Config = Config(gpuAlignment: nat, alignYcrcbHeight: bool, unalignedYcrcb: bool,
                           alignYcbcrHeight: bool, unalignedZsl: bool, masterSideCp: bool)

  predicate ValidConfig(cfg: Config) {
    cfg.gpuAlignment == 1 || (cfg.gpuAlignment > 0 && cfg.gpuAlignment % 2 == 0)
  }

  // ---------------------------------------------------------------------------------------------
  // 32-bit arithmetic
  // ---------------------------------------------------------------------------------------------

  function U32(x: nat, wrap: bool): (r: nat)
    ensures x < TWO_32 ==> r == x
    ensures wrap ==> r < TWO_32
  {
    if wrap then x % TWO_32 else x
  }

  /** ALIGN on an unsigned operand: the addition may wrap before the low bits are cleared. */
  function Align(x: nat, a: nat, wrap: bool): nat
    requires a > 0
  {
    U32(x + a - 1, wrap) - U32(x + a - 1, wrap) % a
  }

  lemma AlignExact(x: nat, a: nat)
    requires a > 0
    ensures Align(x, a, false) == AlignUp(x, a)
    ensures x + a <= TWO_32 ==> Align(x, a, true) == AlignUp(x, a)
  {
  }

  /** A rounded-up value that fits was computed without wrapping. */
  lemma AlignNoWrap(x: nat, a: nat)
    requires 0 < a <= TWO_32 && TWO_32 % a == 0 && AlignUp(x, a) < TWO_32
    ensures Align(x, a, true) == AlignUp(x, a)
  {
    var r := AlignUp(x, a);
    AlignUpMultiple(x, a);
    assert r + a <= TWO_32 by {
      MultiplesApart(r, TWO_32, a);
    }
    AlignExact(x, a);
  }

  // ---------------------------------------------------------------------------------------------
  // Sizes
  // ---------------------------------------------------------------------------------------------

  function DataAlignment(cfg: Config, format: Format, usage: Usage): (a: nat)
    ensures 0 < a && a % PAGE == 0 && TWO_32 % a == 0
  {
    if usage.isProtected then
      if usage.cameraOutput || usage.secureDisplay then SZ_2M
      else if cfg.masterSideCp then SIZE_4K else SZ_1M
    else if format.YCbCr420SPTiled? then TILED_ALIGN
    else PAGE
  }

  /** Descriptions for which the size is 0. */
  predicate Rejected(info: BufferInfo) {
    || info.usage.mipmap || info.usage.cubeMap
    || (info.format.YV12? && (info.width % 2 == 1 || info.height % 2 == 1))
    || ((info.format.YCbCr422SP? || info.format.YCrCb422SP? || info.format.YCbCr422I? || info.format.YCrCb422I?
         || info.format.CbYCrY422I?) && info.width % 2 == 1)
    || ((info.format.Blob? || info.format.RawOpaque?) && info.height != 1)
    || info.format.Unknown?
  }

  /** The bytes of one layer before alignment to the data alignment, given the area of the aligned
      image and, for formats that size their chroma separately, the area of the chroma. */
  function Bytes(format: Format, width: nat, exactArea: nat, exactChroma: nat, wrap: bool): nat {
    var area, chroma := U32(exactArea, wrap), U32(exactChroma, wrap);
    match format
    case Rgb(bpp) => U32(Times(area, bpp), wrap)
    case Raw16 | Y16 => U32(area * 2, wrap)
    case Raw10 | Raw12 => Align(area, SIZE_4K, wrap)
    case Raw8 | Y8 => area
    case YCrCb420SPAdreno => U32(Align(area, SIZE_4K, wrap) + Align(chroma, SIZE_4K, wrap), wrap)
    case YCbCr420SPTiled => U32(Align(area, SIZE_8K, wrap) + Align(chroma, SIZE_8K, wrap), wrap)
    case YV12 => Align(U32(area + U32(chroma * 2, wrap), wrap), SIZE_4K, wrap)
    case YCbCr420SP | YCrCb420SP => Align(U32(area + area / 2 + 1, wrap), SIZE_4K, wrap)
    case P010 => Align(U32(U32(area * 2, wrap) + area + 1, wrap), SIZE_4K, wrap)
    case YCbCr422SP | YCrCb422SP | YCbCr422I | YCrCb422I | CbYCrY422I =>
      Align(U32(area * 2, wrap), SIZE_4K, wrap)
    case Blob | RawOpaque => width
    case Nv21Zsl => Align(U32(area + area / 2, wrap), SIZE_4K, wrap)
    case Unknown => 0
  }

  function ChromaArea(info: BufferInfo, w: nat, h: nat): nat {
    match info.format
    case YCrCb420SPAdreno => 2 * Times(AlignUp(info.width / 2, 32), AlignUp(info.height / 2, 32))
    case YCbCr420SPTiled => Times(w, AlignUp(info.height / 2, 32))
    case YV12 => Times(AlignUp(w / 2, 16), h / 2)
    case _ => 0
  }

  function LayerBytes(info: BufferInfo, w: nat, h: nat, wrap: bool): nat {
    Bytes(info.format, info.width, Times(w, h), ChromaArea(info, w, h), wrap)
  }

  /** Layers one after the other, each rounded up to the data alignment. */
  function Layers(bytes: nat, a: nat, layers: nat, wrap: bool): nat
    requires a > 0
  {
    U32(Times(Align(bytes, a, wrap), layers), wrap)
  }

  function GetSize(cfg: Config, info: BufferInfo, w: nat, h: nat, wrap: bool): nat {
    if Rejected(info) then 0
    else Layers(LayerBytes(info, w, h, wrap), DataAlignment(cfg, info.format, info.usage), info.layers, wrap)
  }

  /** Aligned dimensions of the linear formats and, with the 32-pixel fallback, of RGB. */
  function AlignedDimensions(cfg: Config, info: BufferInfo): (d: (nat, nat))
    requires ValidConfig(cfg)
    ensures info.width <= d.0 || info.format.Raw10? || info.format.Raw12?
    ensures info.height <= d.1
  {
    var (w, h) := (info.width, info.height);
    match info.format
    case Rgb(_) => (AlignUp(w, 32), AlignUp(h, 32))
    case YCrCb420SP =>
      var h1 := if cfg.alignYcrcbHeight then AlignUp(h, 32) else h;
      if cfg.unalignedYcrcb then (w, h1)
      else if cfg.gpuAlignment == 1 then (w, h)
      else (AlignUp(w, cfg.gpuAlignment), if cfg.alignYcbcrHeight then AlignUp(h, 32) else h1)
    case YCbCr420SP =>
      if cfg.gpuAlignment == 1 then (w, h)
      else (AlignUp(w, cfg.gpuAlignment), if cfg.alignYcbcrHeight then AlignUp(h, 32) else h)
    case YCrCb420SPAdreno => (AlignUp(w, 32), h)
    case Raw16 | Y16 | Y8 | Raw8 => (AlignUp(w, 16), h)
    case Raw12 => (AlignUp(w * 12 / 8, 16), h)
    case Raw10 => (AlignUp(w * 10 / 8, 16), h)
    case YCbCr420SPTiled => (AlignUp(w, 128), h)
    case YV12 | YCbCr422SP | YCrCb422SP | YCbCr422I | YCrCb422I | P010 => (AlignUp(w, 16), h)
    case Nv21Zsl => if cfg.unalignedZsl then (w, h) else (AlignUp(w, 64), AlignUp(h, 64))
    case _ => (w, h)
  }

  /** The size is a multiple of the page size for every description, even where 32-bit arithmetic wraps. */
  lemma SizeIsPageMultiple(cfg: Config, info: BufferInfo, w: nat, h: nat, wrap: bool)
    ensures GetSize(cfg, info, w, h, wrap) % PAGE == 0
  {
    var a := DataAlignment(cfg, info.format, info.usage);
    LayersArePageMultiple(LayerBytes(info, w, h, wrap), a, info.layers, wrap);
  }

  lemma LayersArePageMultiple(bytes: nat, a: nat, layers: nat, wrap: bool)
    requires a > 0 && a % PAGE == 0
    ensures Layers(bytes, a, layers, wrap) % PAGE == 0
  {
    var layer := Align(bytes, a, wrap);
    assert layer % PAGE == 0 by {
      RemainderOfDifference(U32(bytes + a - 1, wrap), a);
      MultipleOfDivisor(layer, a, PAGE);
    }
    TimesMultiple(layer, layers, PAGE);
    WrapKeepsMultiple(Times(layer, layers));
  }

  lemma WrapKeepsMultiple(x: nat)
    requires x % PAGE == 0
    ensures (x % TWO_32) % PAGE == 0
  {
  }

  // ---------------------------------------------------------------------------------------------
  // Sizes that fit are exact
  // ---------------------------------------------------------------------------------------------

  /** The bytes of a layer, over unbounded integers and with the last rounding taken off. */
  function Content(format: Format, width: nat, area: nat, chroma: nat): nat {
    match format
    case Rgb(bpp) => Times(area, bpp)
    case Raw10 | Raw12 | Raw8 | Y8 => area
    case YCrCb420SPAdreno | YCbCr420SPTiled => AlignUp(area, SIZE_4K) + chroma
    case YV12 => area + chroma * 2
    case YCbCr420SP | YCrCb420SP => area + area / 2 + 1
    case P010 => area * 3 + 1
    case Nv21Zsl => area + area / 2
    case Blob | RawOpaque => width
    case Unknown => 0
    case _ => area * 2
  }

  /** The 32-bit computation gives the exact number of bytes, and that is no less than the content. */
  predicate Exact(format: Format, width: nat, area: nat, chroma: nat) {
    && Bytes(format, width, area, chroma, true) == Bytes(format, width, area, chroma, false)
    && Content(format, width, area, chroma) <= Bytes(format, width, area, chroma, true)
  }

  lemma RgbExact(bpp: nat, width: nat, area: nat, chroma: nat)
    requires bpp > 0 && Bytes(Rgb(bpp), width, area, chroma, false) < TWO_32
    ensures Exact(Rgb(bpp), width, area, chroma)
  {
    TimesMono(area, 1, bpp);
    assert Times(area, 1) == area;
  }

  lemma TwoAlignedPartsExact(format: Format, width: nat, area: nat, chroma: nat)
    requires format.YCrCb420SPAdreno? || format.YCbCr420SPTiled?
    requires Bytes(format, width, area, chroma, false) < TWO_32
    ensures Exact(format, width, area, chroma)
  {
    AlignStep(area, SIZE_4K);
    AlignStep(chroma, SIZE_4K);
  }

  lemma YV12Exact(width: nat, area: nat, chroma: nat)
    requires Bytes(YV12, width, area, chroma, false) < TWO_32
    ensures Exact(YV12, width, area, chroma)
  {
    AlignStep(area + chroma * 2, SIZE_4K);
  }

  lemma ThreeHalvesExact(format: Format, width: nat, area: nat, chroma: nat)
    requires format.YCbCr420SP? || format.YCrCb420SP? || format.Nv21Zsl?
    requires Bytes(format, width, area, chroma, false) < TWO_32
    ensures Exact(format, width, area, chroma)
  {
    var extra := if format.Nv21Zsl? then 0 else 1;
    ThreeHalves(area, area / 2, extra);
  }

  lemma ThreeHalves(area: nat, half: nat, extra: nat)
    requires Align(U32(area + half + extra, false), SIZE_4K, false) < TWO_32
    ensures U32(area, true) == area
    ensures area + half + extra <= Align(U32(area + half + extra, true), SIZE_4K, true)
            == Align(U32(area + half + extra, false), SIZE_4K, false)
  {
    AlignedSumExact(area, area + half + extra, SIZE_4K);
  }

  /** An aligned value that fits: neither its parts nor the value itself wrap. */
  lemma AlignedSumExact(part: nat, whole: nat, a: nat)
    requires 0 < a <= TWO_32 && TWO_32 % a == 0 && part <= whole && Align(whole, a, false) < TWO_32
    ensures U32(part, true) == part && U32(whole, true) == whole
    ensures whole <= Align(whole, a, true) == Align(whole, a, false)
  {
    AlignStep(whole, a);
    SmallIsKept(part);
    SmallIsKept(whole);
  }

  lemma SmallIsKept(x: nat)
    requires x < TWO_32
    ensures U32(x, true) == x
  {
  }

  lemma P010Exact(width: nat, area: nat, chroma: nat)
    requires Bytes(P010, width, area, chroma, false) < TWO_32
    ensures Exact(P010, width, area, chroma)
  {
    AlignStep(area * 3 + 1, SIZE_4K);
  }

  lemma Interleaved422Exact(format: Format, width: nat, area: nat, chroma: nat)
    requires format.YCbCr422SP? || format.YCrCb422SP? || format.YCbCr422I? || format.YCrCb422I?
             || format.CbYCrY422I?
    requires Bytes(format, width, area, chroma, false) < TWO_32
    ensures Exact(format, width, area, chroma)
  {
    AlignStep(area * 2, SIZE_4K);
  }

  lemma RawExact(format: Format, width: nat, area: nat, chroma: nat)
    requires format.Raw10? || format.Raw12?
    requires Bytes(format, width, area, chroma, false) < TWO_32
    ensures Exact(format, width, area, chroma)
  {
    AlignStep(area, SIZE_4K);
  }

  lemma BytesExact(format: Format, width: nat, area: nat, chroma: nat)
    requires format.Rgb? ==> format.bpp > 0
    requires Bytes(format, width, area, chroma, false) < TWO_32
    ensures Exact(format, width, area, chroma)
  {
    match format
    case Rgb(bpp) => RgbExact(bpp, width, area, chroma);
    case YCrCb420SPAdreno | YCbCr420SPTiled => TwoAlignedPartsExact(format, width, area, chroma);
    case YV12 => YV12Exact(width, area, chroma);
    case YCbCr420SP | YCrCb420SP | Nv21Zsl => ThreeHalvesExact(format, width, area, chroma);
    case P010 => P010Exact(width, area, chroma);
    case YCbCr422SP | YCrCb422SP | YCbCr422I | YCrCb422I | CbYCrY422I =>
      Interleaved422Exact(format, width, area, chroma);
    case Raw10 | Raw12 => RawExact(format, width, area, chroma);
    case Raw16 | Y16 | Raw8 | Y8 | Blob | RawOpaque | Unknown =>
  }

  lemma AlignStep(x: nat, a: nat)
    requires 0 < a <= TWO_32 && TWO_32 % a == 0
    ensures Align(x, a, false) == AlignUp(x, a)
    ensures AlignUp(x, a) < TWO_32 ==> Align(x, a, true) == AlignUp(x, a)
  {
    AlignExact(x, a);
    if AlignUp(x, a) < TWO_32 {
      AlignNoWrap(x, a);
    }
  }

  /** Layers that fit in 32 bits are computed exactly from exact bytes, and hold them. */
  lemma LayersExact(bytes: nat, a: nat, layers: nat)
    requires 0 < a <= TWO_32 && TWO_32 % a == 0 && layers >= 1
    requires Layers(bytes, a, layers, false) < TWO_32
    ensures Layers(bytes, a, layers, true) == Layers(bytes, a, layers, false) >= bytes
    ensures bytes < TWO_32
  {
    AlignStep(bytes, a);
    TimesMono(AlignUp(bytes, a), 1, layers);
    assert Times(AlignUp(bytes, a), 1) == AlignUp(bytes, a);
  }

  /** A size that fits in 32 bits is the exact one, and holds every byte of its layers. */
  lemma SizeNoWrap(cfg: Config, info: BufferInfo, w: nat, h: nat)
    requires !Rejected(info) && info.layers >= 1 && (info.format.Rgb? ==> info.format.bpp > 0)
    requires GetSize(cfg, info, w, h, false) < TWO_32
    ensures GetSize(cfg, info, w, h, true) == GetSize(cfg, info, w, h, false)
    ensures Content(info.format, info.width, Times(w, h), ChromaArea(info, w, h)) <= GetSize(cfg, info, w, h, true)
  {
    LayersExact(LayerBytes(info, w, h, false), DataAlignment(cfg, info.format, info.usage), info.layers);
    BytesExact(info.format, info.width, Times(w, h), ChromaArea(info, w, h));
  }

  // ---------------------------------------------------------------------------------------------
  // Sizes and what is stored
  // ---------------------------------------------------------------------------------------------

  /** The bytes that the samples of an image take, without any padding. The packed raw formats are left to
      `RawRowHoldsIff`. */
  function SampleTotal(format: Format, w: nat, h: nat): nat {
    match format
    case Rgb(bpp) => Times(Times(w, h), bpp)
    case Raw8 | Y8 => Times(w, h)
    case Raw16 | Y16 | YCbCr422SP | YCrCb422SP | YCbCr422I | YCrCb422I | CbYCrY422I => 2 * Times(w, h)
    case YV12 | YCbCr420SP | YCrCb420SP | YCrCb420SPAdreno | YCbCr420SPTiled | Nv21Zsl =>
      Times(w, h) + 2 * Times(w / 2, h / 2)
    case P010 => 2 * (Times(w, h) + 2 * Times(w / 2, h / 2))
    case Blob | RawOpaque => w
    case Raw10 | Raw12 | Unknown => 0
  }

  lemma TimesBoth(a: nat, b: nat, a': nat, b': nat)
    requires a <= a' && b <= b'
    ensures Times(a, b) <= Times(a', b')
  {
    TimesMono(a, b, b');
    TimesMonoLeft(a, a', b');
  }

  /** A quarter of the pixels, twice, is at most half of them. */
  lemma QuarterTwice(w: nat, h: nat)
    ensures 2 * Times(w / 2, h / 2) <= Times(w, h) / 2
  {
    TimesTwice(w / 2, h / 2);
    TimesBoth(2 * (w / 2), h / 2, w, h / 2);
    TimesHalf(w, 2 * (h / 2));
    TimesMono(w, 2 * (h / 2), h);
  }

  lemma ContentHoldsSamples(cfg: Config, info: BufferInfo)
    requires ValidConfig(cfg)
    ensures var (w, h) := AlignedDimensions(cfg, info);
            SampleTotal(info.format, info.width, info.height)
            <= Content(info.format, info.width, Times(w, h), ChromaArea(info, w, h))
  {
    var (w, h) := AlignedDimensions(cfg, info);
    var f, area := info.format, Times(info.width, info.height);
    QuarterTwice(info.width, info.height);
    if !f.Raw10? && !f.Raw12? {
      TimesBoth(info.width, info.height, w, h);
      match f
      case Rgb(bpp) => TimesMonoLeft(area, Times(w, h), bpp);
      case YCrCb420SPAdreno =>
        TimesBoth(info.width / 2, info.height / 2, AlignUp(info.width / 2, 32), AlignUp(info.height / 2, 32));
      case YCbCr420SPTiled => TiledChromaHolds(info.width, info.height, w);
      case YV12 => PlanarChromaHolds(info.width, info.height, w, h);
      case _ =>
    }
  }

  lemma TiledChromaHolds(width: nat, height: nat, w: nat)
    requires width <= w
    ensures 2 * Times(width / 2, height / 2) <= Times(w, AlignUp(height / 2, 32))
  {
    TimesTwice(width / 2, height / 2);
    TimesBoth(2 * (width / 2), height / 2, w, AlignUp(height / 2, 32));
  }

  lemma PlanarChromaHolds(width: nat, height: nat, w: nat, h: nat)
    requires width <= w && height <= h
    ensures Times(width / 2, height / 2) <= Times(AlignUp(w / 2, 16), h / 2)
  {
    TimesBoth(width / 2, height / 2, AlignUp(w / 2, 16), h / 2);
  }

  /** Whatever is asked for, a size that fits in 32 bits holds every sample of the requested image. */
  lemma SizeHoldsSamples(cfg: Config, info: BufferInfo)
    requires ValidConfig(cfg) && !Rejected(info) && info.layers >= 1 && (info.format.Rgb? ==> info.format.bpp > 0)
    requires var (w, h) := AlignedDimensions(cfg, info); GetSize(cfg, info, w, h, false) < TWO_32
    ensures var (w, h) := AlignedDimensions(cfg, info);
            SampleTotal(info.format, info.width, info.height) <= GetSize(cfg, info, w, h, true)
  {
    var (w, h) := AlignedDimensions(cfg, info);
    SizeNoWrap(cfg, info, w, h);
    ContentHoldsSamples(cfg, info);
  }

  /** The strides: the least multiple of what each format asks for that holds a row, or its bytes for the
      packed raw formats. */
  lemma StrideIsLeast(cfg: Config, info: BufferInfo, a: nat)
    requires ValidConfig(cfg)
    requires match info.format
             case Rgb(_) | YCrCb420SPAdreno => a == 32
             case YCbCr420SPTiled => a == 128
             case Nv21Zsl => a == if cfg.unalignedZsl then 1 else 64
             case YCrCb420SP => a == if cfg.unalignedYcrcb then 1 else cfg.gpuAlignment
             case YCbCr420SP => a == cfg.gpuAlignment
             case CbYCrY422I | Blob | RawOpaque | Unknown => a == 1
             case _ => a == 16
    ensures var row := match info.format
                       case Raw12 => info.width * 12 / 8
                       case Raw10 => info.width * 10 / 8
                       case _ => info.width;
            LeastMultiple(AlignedDimensions(cfg, info).0, a, row)
  {
    var d := AlignedDimensions(cfg, info);
    var row := match info.format
               case Raw12 => info.width * 12 / 8
               case Raw10 => info.width * 10 / 8
               case _ => info.width;
    LeastMultipleIsAlignUp(d.0, a, row);
  }

  /** The heights: rounded to 32 rows for RGB and where the build asks for it, to 64 for zero-shutter-lag
      images, and as requested otherwise. */
  lemma HeightsByFormat(cfg: Config, info: BufferInfo)
    requires ValidConfig(cfg)
    ensures var h := AlignedDimensions(cfg, info).1;
            && h in {info.height, AlignUp(info.height, 32), AlignUp(info.height, 64)}
            && (info.format.Rgb? ==> LeastMultiple(h, 32, info.height))
            && (info.format.Nv21Zsl? && !cfg.unalignedZsl ==> LeastMultiple(h, 64, info.height))
            && (!info.format.Rgb? && !info.format.Nv21Zsl? && !cfg.alignYcrcbHeight && !cfg.alignYcbcrHeight ==>
                  h == info.height)
  {
    var h := AlignedDimensions(cfg, info).1;
    LeastMultipleIsAlignUp(h, 32, info.height);
    LeastMultipleIsAlignUp(h, 64, info.height);
  }

  /** A row of a packed raw format holds its pixels unless the last one only partly fills its last byte and
      the whole bytes before end on a 16-byte boundary. */
  lemma RawRowHoldsIff(w: nat, bits: nat)
    ensures bits * w <= 8 * AlignUp(w * bits / 8, 16) <==> (w * bits) % 8 == 0 || (w * bits / 8) % 16 != 0
  {
    PackedRowIff(w * bits);
    assert bits * w == w * bits;
  }

  lemma PackedRowIff(n: nat)
    ensures n <= 8 * AlignUp(n / 8, 16) <==> n % 8 == 0 || (n / 8) % 16 != 0
  {
    var q := n / 8;
    AlignUpMultiple(q, 16);
    if q % 16 == 0 {
      AlignUpUnique(q, 16, q);
    }
  }

  /** Such a row: 13 pixels of 10 bits in 16 bytes. */
  lemma RawRowTooShort(cfg: Config, usage: Usage)
    requires ValidConfig(cfg)
    ensures AlignedDimensions(cfg, BufferInfo(13, 1, Raw10, 1, usage)) == (16, 1) && 8 * 16 < 13 * 10
  {
  }

  /** The descriptions that are served: no mipmaps or cube maps, even dimensions where chroma is shared
      between columns or rows, and one row of a plain blob. */
  predicate Served(info: BufferInfo) {
    && !info.usage.mipmap && !info.usage.cubeMap
    && match info.format
       case Unknown => false
       case YV12 => info.width % 2 == 0 && info.height % 2 == 0
       case YCbCr422SP | YCrCb422SP | YCbCr422I | YCrCb422I | CbYCrY422I => info.width % 2 == 0
       case Blob | RawOpaque => info.height == 1
       case _ => true
  }

  /** An image that is not empty gets a size if and only if it is served. */
  lemma ServedIff(cfg: Config, info: BufferInfo, w: nat, h: nat)
    requires w > 0 && h > 0 && info.width > 0 && info.layers > 0 && (info.format.Rgb? ==> info.format.bpp > 0)
    ensures GetSize(cfg, info, w, h, false) > 0 <==> Served(info)
  {
    assert Rejected(info) <==> !Served(info);
    if Served(info) {
      SomeBytes(info, w, h);
      var bytes, a := LayerBytes(info, w, h, false), DataAlignment(cfg, info.format, info.usage);
      AlignExact(bytes, a);
      TimesMono(AlignUp(bytes, a), 1, info.layers);
      assert Times(AlignUp(bytes, a), 1) == AlignUp(bytes, a);
    }
  }

  lemma SomeBytes(info: BufferInfo, w: nat, h: nat)
    requires w > 0 && h > 0 && info.width > 0 && !info.format.Unknown? && (info.format.Rgb? ==> info.format.bpp > 0)
    ensures LayerBytes(info, w, h, false) > 0
  {
    var area := Times(w, h);
    TimesMono(w, 1, h);
    assert Times(w, 1) == w;
    if info.format.Rgb? {
      TimesMono(area, 1, info.format.bpp);
      assert Times(area, 1) == area;
    }
    PositiveBytes(info.format, info.width, area, ChromaArea(info, w, h));
  }

  lemma PositiveBytes(f: Format, width: nat, area: nat, chroma: nat)
    requires width > 0 && area > 0 && !f.Unknown? && (f.Rgb? ==> Times(area, f.bpp) > 0)
    ensures Bytes(f, width, area, chroma, false) > 0
  {
    match f
    case YV12 => RoundedTight(area + chroma * 2);
    case Nv21Zsl => RoundedTight(area + area / 2);
    case YCbCr422SP | YCrCb422SP | YCbCr422I | YCrCb422I | CbYCrY422I => RoundedTight(area * 2);
    case YCbCr420SP | YCrCb420SP => RoundedTight(area + area / 2 + 1);
    case P010 => RoundedTight(area * 3 + 1);
    case YCrCb420SPAdreno | YCbCr420SPTiled | Raw10 | Raw12 => RoundedTight(area);
    case _ =>
  }

  /** Room for `x` bytes, and less than a page more. */
  predicate Tight(bytes: nat, x: nat) {
    x <= bytes < x + 4096
  }

  /** Nothing is wasted: for an image that is aligned as it is, a layer takes its samples, or where the
      format asks for whole pages less than a page more, counted from one byte more for the plain 4:2:0 formats. */
  lemma NoWaste(info: BufferInfo, a: nat, b: nat, w: nat, h: nat)
    requires w == 64 * a && h == 64 * b && info.width == w && info.height == h
    ensures var bytes, samples := LayerBytes(info, w, h, false), SampleTotal(info.format, w, h);
            match info.format
            case Rgb(_) | Raw8 | Y8 | Raw16 | Y16 | Blob | RawOpaque => bytes == samples
            case YV12 | Nv21Zsl | YCbCr422SP | YCrCb422SP | YCbCr422I | YCrCb422I | CbYCrY422I => Tight(bytes, samples)
            case YCbCr420SP | YCrCb420SP | P010 => Tight(bytes, samples + 1)
            case YCrCb420SPAdreno | YCbCr420SPTiled => samples <= bytes < samples + 2 * 4096
            case Raw10 | Raw12 => Tight(bytes, Times(w, h))
            case Unknown => true
  {
    var x, y := 32 * a, 32 * b;
    assert w / 2 == x && h / 2 == y;
    QuarterOfDouble(x, y);
    ChromaExact(info, a, b);
    SparingBytes(info.format, w, Times(w, h), Times(x, y));
  }

  /** The chroma of an aligned image: a quarter of the area twice, however it is computed. */
  lemma ChromaExact(info: BufferInfo, a: nat, b: nat)
    requires info.width == 64 * a && info.height == 64 * b
    ensures ChromaArea(info, 64 * a, 64 * b) == ChromaOf(info.format, Times(32 * a, 32 * b))
  {
    var x, y := 32 * a, 32 * b;
    assert info.width / 2 == x && info.height / 2 == y;
    match info.format
    case YV12 => assert AlignUp(x, 16) == x by { WholeHalf(x, a); }
    case YCrCb420SPAdreno =>
      assert AlignUp(x, 32) == x by { WholeHalf(x, a); }
      assert AlignUp(y, 32) == y by { WholeHalf(y, b); }
    case YCbCr420SPTiled =>
      assert AlignUp(y, 32) == y by { WholeHalf(y, b); }
      QuarterOfDouble(x, y);
    case _ =>
  }

  function ChromaOf(f: Format, quarter: nat): nat {
    if f.YV12? then quarter else if f.YCrCb420SPAdreno? || f.YCbCr420SPTiled? then 2 * quarter else 0
  }

  predicate Sparing(f: Format, width: nat, area: nat, quarter: nat, bytes: nat) {
    match f
    case Rgb(bpp) => bytes == Times(area, bpp)
    case Raw8 | Y8 => bytes == area
    case Raw16 | Y16 => bytes == 2 * area
    case Blob | RawOpaque => bytes == width
    case YV12 | Nv21Zsl => Tight(bytes, area + 2 * quarter)
    case YCbCr422SP | YCrCb422SP | YCbCr422I | YCrCb422I | CbYCrY422I => Tight(bytes, 2 * area)
    case YCbCr420SP | YCrCb420SP => Tight(bytes, area + 2 * quarter + 1)
    case P010 => Tight(bytes, 2 * (area + 2 * quarter) + 1)
    case YCrCb420SPAdreno | YCbCr420SPTiled => area + 2 * quarter <= bytes < area + 2 * quarter + 2 * 4096
    case Raw10 | Raw12 => Tight(bytes, area)
    case Unknown => true
  }

  lemma SparingBytes(f: Format, width: nat, area: nat, quarter: nat)
    requires area == 4 * quarter
    ensures Sparing(f, width, area, quarter, Bytes(f, width, area, ChromaOf(f, quarter), false))
  {
    match f
    case YV12 | Nv21Zsl | YCbCr420SP | YCrCb420SP | P010 => SparingRounded(f, width, area, quarter);
    case YCrCb420SPAdreno | YCbCr420SPTiled => SparingParts(f, width, area, quarter);
    case YCbCr422SP | YCrCb422SP | YCbCr422I | YCrCb422I | CbYCrY422I => RoundedTight(2 * area);
    case Raw10 | Raw12 => RoundedTight(area);
    case _ =>
  }

  lemma SparingRounded(f: Format, width: nat, area: nat, quarter: nat)
    requires area == 4 * quarter && (f.YV12? || f.Nv21Zsl? || f.YCbCr420SP? || f.YCrCb420SP? || f.P010?)
    ensures Sparing(f, width, area, quarter, Bytes(f, width, area, ChromaOf(f, quarter), false))
  {
    RoundedTight(if f.P010? then 3 * area + 1
                 else if f.YCbCr420SP? || f.YCrCb420SP? then area + area / 2 + 1 else area + 2 * quarter);
  }

  lemma SparingParts(f: Format, width: nat, area: nat, quarter: nat)
    requires area == 4 * quarter && (f.YCrCb420SPAdreno? || f.YCbCr420SPTiled?)
    ensures Sparing(f, width, area, quarter, Bytes(f, width, area, ChromaOf(f, quarter), false))
  {
    RoundedTight(area);
    RoundedTight(2 * quarter);
  }

  lemma RoundedTight(x: nat)
    ensures Tight(Align(x, SIZE_4K, false), x)
  {
    AlignExact(x, SIZE_4K);
  }

  lemma QuarterOfDouble(x: nat, y: nat)
    ensures Times(2 * x, 2 * y) == 4 * Times(x, y) && Times(2 * x, y) == 2 * Times(x, y)
  {
    TimesIsProduct(2 * x, 2 * y);
    TimesIsProduct(2 * x, y);
    TimesIsProduct(x, y);
  }

  lemma WholeHalf(x: nat, k: nat)
    requires x == 32 * k
    ensures AlignUp(x, 16) == x && AlignUp(x, 32) == x
  {
    MultipleMod(k, 32);
    MultipleOfDivisor(x, 32, 16);
    AlignUpUnique(x, 16, x);
    AlignUpUnique(x, 32, x);
  }

  /** What the data alignment of a layer must be: 2 MB for protected camera and display buffers, 1 MB or 4 KB
      for other protected ones, 8 KB for tiled and 4 KB for other images. */
  lemma LayerAlignment(cfg: Config, info: BufferInfo, w: nat, h: nat, section: nat)
    requires !Rejected(info) && info.layers == 1
    requires
      || (info.usage.isProtected && (info.usage.cameraOutput || info.usage.secureDisplay) && section == 0x20_0000)
      || (info.usage.isProtected && !info.usage.cameraOutput && !info.usage.secureDisplay
          && section == if cfg.masterSideCp then 0x1000 else 0x10_0000)
      || (!info.usage.isProtected && section == if info.format == YCbCr420SPTiled then 0x2000 else 0x1000)
    ensures var size, bytes := GetSize(cfg, info, w, h, false), LayerBytes(info, w, h, false);
            size % section == 0 && bytes <= size < bytes + section
  {
    var bytes := LayerBytes(info, w, h, false);
    AlignExact(bytes, section);
    AlignUpMultiple(bytes, section);
    assert Times(AlignUp(bytes, section), 1) == AlignUp(bytes, section);
  }
}
