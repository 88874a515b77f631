/** Layouts of bandwidth-compressed (UBWC) buffers: a metadata plane precedes each data plane. */
module UbwcLayout {
  import opened Alignment
  import opened GrallocLayout
  import opened Rows

  const META_ALIGN: nat := 4096

  // ---------------------------------------------------------------------------------------------
  // RGB
  // ---------------------------------------------------------------------------------------------

  /** Pixels per compression block, 0 for depths that have none. */
  function BlockWidth(bpp: nat): nat {
    match bpp
    case 2 => 16
    case 4 => 16
    case 8 => 8
    case 16 => 4
    case _ => 0
  }

  function BlockHeight(bpp: nat): nat {
    if BlockWidth(bpp) == 0 then 0 else 4
  }

  /** Blocks needed along one side, rounded up to a multiple of `a`. */
  function Blocks(pixels: nat, block: nat, a: nat): nat
    requires block > 0 && a > 0
  {
    AlignUp((pixels + block - 1) / block, a)
  }

  /** One byte for every block, rounded up. */
  function MetaBytes(blocksWide: nat, blocksHigh: nat): nat {
    AlignUp(Times(blocksWide, blocksHigh), META_ALIGN)
  }

  function MetaSize(width: nat, height: nat, bpp: nat): nat {
    if BlockWidth(bpp) == 0 then 0
    else MetaBytes(Blocks(width, BlockWidth(bpp), 64), Blocks(height, BlockHeight(bpp), 16))
  }

  /** The bytes of a layer: data for the aligned image, metadata for the image as requested. */
  function UbwcBytes(width: nat, height: nat, bpp: nat, alignedW: nat, alignedH: nat, wrap: bool): nat {
    U32(U32(Times(U32(Times(alignedW, alignedH), wrap), bpp), wrap) + U32(MetaSize(width, height, bpp), wrap), wrap)
  }

  /** Where the data starts, computed from the dimensions kept in the handle. */
  function DataOffset(compressed: bool, handleWidth: nat, handleHeight: nat, bpp: nat): nat {
    if compressed then MetaSize(handleWidth, handleHeight, bpp) else 0
  }

  /** Rounding to whole groups of blocks absorbs rounding to 32 pixels. */
  lemma BlocksOfAligned(pixels: nat, block: nat, a: nat)
    requires block > 0 && a > 0 && (block * a) % 32 == 0
    ensures Blocks(AlignUp(pixels, 32), block, a) == Blocks(pixels, block, a)
  {
    var n, m := Blocks(pixels, block, a), Blocks(AlignUp(pixels, 32), block, a);
    assert block * n == block * m by {
      GroupsOfBlocks(pixels, block, a);
      GroupsOfBlocks(AlignUp(pixels, 32), block, a);
      AlignUpTwice(pixels, 32, block * a);
    }
    QuotientUnique(block, n, 0, m, 0);
  }

  /** Whole groups of blocks, counted in pixels. */
  lemma GroupsOfBlocks(pixels: nat, block: nat, a: nat)
    requires block > 0 && a > 0
    ensures block * Blocks(pixels, block, a) == AlignUp(pixels, block * a)
  {
    var c := (pixels + block - 1) / block;
    var n := AlignUp(c, a);
    GroupIsMultiple(c, block, a);
    CeilDiv(pixels, block);
    GroupInWindow(pixels, block, a, c, n);
    AlignUpUnique(pixels, block * a, block * n);
  }

  lemma GroupIsMultiple(c: nat, block: nat, a: nat)
    requires block > 0 && a > 0
    ensures block * a > 0 && (block * AlignUp(c, a)) % (block * a) == 0
  {
    var n := AlignUp(c, a);
    AlignUpMultiple(c, a);
    Euclid(n, a);
    Regroup(block, a, n / a);
    MulStep(block, 0, a);
    MultipleMod(n / a, block * a);
  }

  lemma GroupInWindow(pixels: nat, block: nat, a: nat, c: nat, n: nat)
    requires pixels <= block * c < pixels + block && c <= n < c + a
    ensures pixels <= block * n < pixels + block * a
  {
    MulMono(block, c, n);
    MulMono(block, n + 1, c + a);
    Distribute(block, n);
    DistributeSum(block, c, a);
  }

  lemma DistributeSum(k: nat, x: nat, y: nat)
    ensures k * (x + y) == k * x + k * y
  {
  }

  /** The quotient rounded up. */
  lemma CeilDiv(x: nat, d: nat)
    requires d > 0
    ensures x <= d * ((x + d - 1) / d) < x + d
  {
    Euclid(x + d - 1, d);
  }

  /** The metadata size found at access, from the aligned dimensions, is the one used at allocation. */
  lemma MetaSizeOfAligned(width: nat, height: nat, bpp: nat)
    ensures MetaSize(AlignUp(width, 32), AlignUp(height, 32), bpp) == MetaSize(width, height, bpp)
  {
    BlocksOfAligned(height, 4, 16);
    match BlockWidth(bpp)
    case 16 => BlocksOfAligned(width, 16, 64);
    case 8 => BlocksOfAligned(width, 8, 64);
    case 4 => BlocksOfAligned(width, 4, 64);
    case _ =>
  }

  lemma MetaSizeMultiple(width: nat, height: nat, bpp: nat)
    ensures MetaSize(width, height, bpp) % META_ALIGN == 0
  {
    if BlockWidth(bpp) != 0 {
      AlignUpMultiple(Times(Blocks(width, BlockWidth(bpp), 64), Blocks(height, 4, 16)), META_ALIGN);
    }
  }

  /** The data plane starts on a 4K boundary after the metadata and exactly fills the bytes of the layer;
      when these fit in 32 bits they were computed exactly. */
  lemma DataFillsBuffer(width: nat, height: nat, bpp: nat, w: nat, h: nat)
    requires w == AlignUp(width, 32) && h == AlignUp(height, 32) && bpp > 0
    ensures DataOffset(true, w, h, bpp) + Times(Times(w, h), bpp) == UbwcBytes(width, height, bpp, w, h, false)
    ensures DataOffset(true, w, h, bpp) % META_ALIGN == 0 && DataOffset(false, w, h, bpp) == 0
    ensures UbwcBytes(width, height, bpp, w, h, false) < TWO_32 ==>
              UbwcBytes(width, height, bpp, w, h, true) == UbwcBytes(width, height, bpp, w, h, false)
  {
    var meta, area := MetaSize(width, height, bpp), Times(w, h);
    assert DataOffset(true, w, h, bpp) == meta by {
      MetaSizeOfAligned(width, height, bpp);
    }
    MetaSizeMultiple(width, height, bpp);
    TimesMono(area, 1, bpp);
    assert Times(area, 1) == area;
  }

  /** The data plane lies inside the size the buffer is allocated with, for any number of layers that fit
      in 32 bits. */
  lemma DataInsideSize(width: nat, height: nat, bpp: nat, w: nat, h: nat, a: nat, layers: nat)
    requires w == AlignUp(width, 32) && h == AlignUp(height, 32) && bpp > 0 && layers >= 1
    requires 0 < a <= TWO_32 && TWO_32 % a == 0
    requires Layers(UbwcBytes(width, height, bpp, w, h, false), a, layers, false) < TWO_32
    ensures DataOffset(true, w, h, bpp) + Times(Times(w, h), bpp)
            <= Layers(UbwcBytes(width, height, bpp, w, h, true), a, layers, true)
  {
    var bytes := UbwcBytes(width, height, bpp, w, h, false);
    DataFillsBuffer(width, height, bpp, w, h);
    LayersExact(bytes, a, layers);
  }

  /** A block is four rows of pixels; it holds 256 bytes, or 128 at two bytes to a pixel. Other depths have
      none. */
  lemma BlockBytes(bpp: nat)
    ensures bpp in {4, 8, 16} ==> BlockWidth(bpp) * BlockHeight(bpp) * bpp == 256 && BlockHeight(bpp) == 4
    ensures bpp == 2 ==> BlockWidth(bpp) * BlockHeight(bpp) * bpp == 128 && BlockHeight(bpp) == 4
    ensures bpp !in {2, 4, 8, 16} ==> MetaSize(0, 0, bpp) == 0 && BlockWidth(bpp) == BlockHeight(bpp) == 0
  {
  }

  /** The metadata plane: a byte for each block of the image rounded up to 64 blocks by 16, in whole 4K. */
  lemma MetaSizeIs(width: nat, height: nat, bpp: nat, across: nat, down: nat, bw: nat)
    requires bw > 0 && bw * 4 * bpp == (if bpp == 2 then 128 else 256) && bpp in {2, 4, 8, 16}
    requires LeastMultiple(bw * across, bw * 64, width) && LeastMultiple(4 * down, 64, height)
    ensures LeastMultiple(MetaSize(width, height, bpp), 4096, Times(across, down))
  {
    assert BlockWidth(bpp) == bw;
    BlocksAre(width, bw, 64, across);
    BlocksAre(height, 4, 16, down);
    LeastMultipleIsAlignUp(MetaSize(width, height, bpp), 4096, Times(across, down));
  }

  /** The blocks along a side, counted by the pixels they cover. */
  lemma BlocksAre(pixels: nat, block: nat, a: nat, n: nat)
    requires block > 0 && a > 0 && LeastMultiple(block * n, block * a, pixels)
    ensures Blocks(pixels, block, a) == n
  {
    var m := Blocks(pixels, block, a);
    assert block * m == block * n by {
      GroupsOfBlocks(pixels, block, a);
      LeastMultipleIsAlignUp(block * n, block * a, pixels);
    }
    QuotientUnique(block, m, 0, n, 0);
  }

  /** One metadata entry for every block that holds a pixel of the image, `mw` entries to a row. */
  lemma MetaCoversBlocks(width: nat, height: nat, bpp: nat, x: nat, y: nat, bw: nat, mw: nat)
    requires bw == BlockWidth(bpp) != 0 && mw == Blocks(width, bw, 64) && x < width && y < height
    ensures x / bw < mw && Times(mw, y / 4) + x / bw < MetaSize(width, height, bpp)
  {
    var mh := Blocks(height, 4, 16);
    BlockInRange(width, bw, 64, x);
    BlockInRange(height, 4, 16, y);
    TimesMono(mw, y / 4, mh);
  }

  lemma BlockInRange(pixels: nat, block: nat, a: nat, x: nat)
    requires (block == 16 || block == 8 || block == 4) && a > 0 && x < pixels
    ensures x / block < Blocks(pixels, block, a)
  {
    assert x / block < (pixels + block - 1) / block;
  }

  // ---------------------------------------------------------------------------------------------
  // YUV
  // ---------------------------------------------------------------------------------------------

  /** Strides by width and scanlines by height of the four planes, as the video hardware defines them. */
  datatype Venus = Venus(yMetaStride: nat -> nat, yMetaScanlines: nat -> nat, yStride: nat -> nat,
                         yScanlines: nat -> nat, uvMetaStride: nat -> nat, uvMetaScanlines: nat -> nat,
                         uvStride: nat -> nat, uvScanlines: nat -> nat)

  datatype YCbCr = YCbCr(y: nat, cb: nat, cr: nat, yStride: nat, cStride: nat)

  /** The size of a plane in 32-bit arithmetic. */
  function PlaneSize(stride: nat, scanlines: nat): nat {
    Align(U32(Times(stride, scanlines), true), META_ALIGN, true)
  }

  /** The rows of a plane, rounded up, fit in 32 bits. */
  predicate PlaneFits(stride: nat, scanlines: nat) {
    Times(stride, scanlines) + META_ALIGN <= TWO_32
  }

  /** So do the rows of all four planes. */
  predicate AllFit(v: Venus, width: nat, height: nat) {
    && PlaneFits(v.yMetaStride(width), v.yMetaScanlines(height))
    && PlaneFits(v.yStride(width), v.yScanlines(height))
    && PlaneFits(v.uvMetaStride(width), v.uvMetaScanlines(height))
    && PlaneFits(v.uvStride(width), v.uvScanlines(height))
  }

  function UvSize(v: Venus, width: nat, height: nat): nat {
    PlaneSize(v.uvStride(width), v.uvScanlines(height))
  }

  /** The metadata and data planes follow each other: luma metadata, luma, chroma metadata, chroma. */
  function UbwcPlanes(v: Venus, base: nat, width: nat, height: nat): YCbCr {
    var yMeta := PlaneSize(v.yMetaStride(width), v.yMetaScanlines(height));
    var y := PlaneSize(v.yStride(width), v.yScanlines(height));
    var uvMeta := PlaneSize(v.uvMetaStride(width), v.uvMetaScanlines(height));
    YCbCr(base + yMeta, base + yMeta + y + uvMeta, base + yMeta + y + uvMeta + 1, v.yStride(width), v.uvStride(width))
  }

  /** Two fields of half the height, rounded up; the second starts after the first one's chroma. */
  function InterlacedPlanes(v: Venus, base: nat, width: nat, height: nat): (YCbCr, YCbCr) {
    var half := (height + 1) / 2;
    var first := UbwcPlanes(v, base, width, half);
    (first, UbwcPlanes(v, first.cb + UvSize(v, width, half), width, half))
  }

  /** A plane: its first byte, its size, and the rows it must hold. */
  datatype Plane = Plane(start: nat, size: nat, stride: nat, scanlines: nat)

  /** The four planes of a buffer or field, read off the plane information. */
  function Planes(v: Venus, base: nat, width: nat, height: nat): seq<Plane> {
    var p := UbwcPlanes(v, base, width, height);
    var uvMeta := PlaneSize(v.uvMetaStride(width), v.uvMetaScanlines(height));
    [Plane(base, p.y - base, v.yMetaStride(width), v.yMetaScanlines(height)),
     Plane(p.y, PlaneSize(v.yStride(width), v.yScanlines(height)), p.yStride, v.yScanlines(height)),
     Plane(p.cb - uvMeta, uvMeta, v.uvMetaStride(width), v.uvMetaScanlines(height)),
     Plane(p.cb, UvSize(v, width, height), p.cStride, v.uvScanlines(height))]
  }

  predicate Holds(p: Plane) {
    Times(p.stride, p.scanlines) <= p.size
  }

  /** Planes on 4K boundaries, each large enough for its rows and ending where the next one starts. */
  predicate Stacked(planes: seq<Plane>) {
    && (forall i :: 0 <= i < |planes| ==>
          planes[i].start % META_ALIGN == 0 && Holds(planes[i]))
    && (forall i :: 0 < i < |planes| ==> planes[i - 1].start + planes[i - 1].size == planes[i].start)
  }

  predicate Disjoint(p: Plane, q: Plane) {
    p.start + p.size <= q.start || q.start + q.size <= p.start
  }

  /** Planes that are stacked are ordered and pairwise disjoint. */
  lemma {:induction false} StackedDisjoint(planes: seq<Plane>, i: nat, j: nat)
    requires Stacked(planes) && i < j < |planes|
    ensures planes[i].start + planes[i].size <= planes[j].start && Disjoint(planes[i], planes[j])
    decreases j
  {
    if i + 1 < j {
      StackedDisjoint(planes, i, j - 1);
    }
  }

  lemma PlaneHoldsIff(stride: nat, scanlines: nat)
    ensures PlaneSize(stride, scanlines) % META_ALIGN == 0
    ensures Times(stride, scanlines) <= PlaneSize(stride, scanlines) <==> PlaneFits(stride, scanlines)
  {
    var rows := Times(stride, scanlines);
    RemainderOfDifference(U32(U32(rows, true) + META_ALIGN - 1, true), META_ALIGN);
    if rows < TWO_32 {
      AlignExact(rows, META_ALIGN);
    }
  }

  /** Plane after plane, from an aligned base and with aligned sizes: only the rows can fail to fit. */
  lemma FourStackedIff(a: Plane, b: Plane, c: Plane, d: Plane)
    requires a.start % META_ALIGN == 0 && a.size % META_ALIGN == 0
    requires b.size % META_ALIGN == 0 && c.size % META_ALIGN == 0
    requires b.start == a.start + a.size && c.start == b.start + b.size && d.start == c.start + c.size
    ensures Stacked([a, b, c, d]) <==> Holds(a) && Holds(b) && Holds(c) && Holds(d)
  {
    AddMultiples(a.start, a.size, META_ALIGN);
    AddMultiples(b.start, b.size, META_ALIGN);
    AddMultiples(c.start, c.size, META_ALIGN);
    var planes := [a, b, c, d];
    assert Stacked(planes) ==> Holds(planes[0]) && Holds(planes[1]) && Holds(planes[2]) && Holds(planes[3]);
  }

  /** The four planes are stacked if and only if no size wraps. */
  lemma FramePlanesStackedIff(v: Venus, base: nat, width: nat, height: nat)
    requires base % META_ALIGN == 0
    ensures Stacked(Planes(v, base, width, height)) <==> AllFit(v, width, height)
  {
    PlaneHoldsIff(v.yMetaStride(width), v.yMetaScanlines(height));
    PlaneHoldsIff(v.yStride(width), v.yScanlines(height));
    PlaneHoldsIff(v.uvMetaStride(width), v.uvMetaScanlines(height));
    PlaneHoldsIff(v.uvStride(width), v.uvScanlines(height));
    var planes := Planes(v, base, width, height);
    FourStackedIff(planes[0], planes[1], planes[2], planes[3]);
  }

  lemma StackedAppendIff(ps: seq<Plane>, qs: seq<Plane>)
    requires ps != [] && qs != [] && ps[|ps| - 1].start + ps[|ps| - 1].size == qs[0].start
    ensures Stacked(ps + qs) <==> Stacked(ps) && Stacked(qs)
  {
    if Stacked(ps + qs) {
      assert forall i :: 0 <= i < |ps| ==> (ps + qs)[i] == ps[i];
      forall i | 0 <= i < |qs|
        ensures qs[i].start % META_ALIGN == 0 && Holds(qs[i])
        ensures i > 0 ==> qs[i - 1].start + qs[i - 1].size == qs[i].start
      {
        assert (ps + qs)[|ps| + i] == qs[i];
        assert i > 0 ==> (ps + qs)[|ps| + i - 1] == qs[i - 1];
      }
    }
  }

  /** The base of the second field. */
  function SecondBase(v: Venus, base: nat, width: nat, height: nat): (b: nat)
    ensures b >= base
  {
    var half := (height + 1) / 2;
    UbwcPlanes(v, base, width, half).cb + UvSize(v, width, half)
  }

  function MovedBy(p: YCbCr, n: int): YCbCr
    requires p.y + n >= 0 && p.cb + n >= 0 && p.cr + n >= 0
  {
    p.(y := p.y + n, cb := p.cb + n, cr := p.cr + n)
  }

  /** The eight planes of an interlaced buffer are stacked if and only if no size wraps: the second field
      starts where the chroma of the first ends, on a 4K boundary, and has the same layout relative to its
      own base. */
  lemma InterlacedPlanesStackedIff(v: Venus, base: nat, width: nat, height: nat)
    requires base % META_ALIGN == 0
    ensures var half := (height + 1) / 2;
            Stacked(Planes(v, base, width, half) + Planes(v, SecondBase(v, base, width, height), width, half))
            <==> AllFit(v, width, half)
    ensures SecondBase(v, base, width, height) % META_ALIGN == 0
    ensures InterlacedPlanes(v, base, width, height).1
            == MovedBy(InterlacedPlanes(v, base, width, height).0, SecondBase(v, base, width, height) - base)
  {
    var half := (height + 1) / 2;
    var first := Planes(v, base, width, half);
    var base2 := SecondBase(v, base, width, height);
    assert base2 == first[3].start + first[3].size;
    assert base2 % META_ALIGN == 0 by {
      EndAligned(v, base, width, half);
    }
    FramePlanesStackedIff(v, base, width, half);
    FramePlanesStackedIff(v, base2, width, half);
    StackedAppendIff(first, Planes(v, base2, width, half));
  }

  lemma EndAligned(v: Venus, base: nat, width: nat, height: nat)
    requires base % META_ALIGN == 0
    ensures (UbwcPlanes(v, base, width, height).cb + UvSize(v, width, height)) % META_ALIGN == 0
  {
    var a := PlaneSize(v.yMetaStride(width), v.yMetaScanlines(height));
    var b := PlaneSize(v.yStride(width), v.yScanlines(height));
    var c := PlaneSize(v.uvMetaStride(width), v.uvMetaScanlines(height));
    var d := UvSize(v, width, height);
    PlaneHoldsIff(v.yMetaStride(width), v.yMetaScanlines(height));
    PlaneHoldsIff(v.yStride(width), v.yScanlines(height));
    PlaneHoldsIff(v.uvMetaStride(width), v.uvMetaScanlines(height));
    PlaneHoldsIff(v.uvStride(width), v.uvScanlines(height));
    AddMultiples(base, a, META_ALIGN);
    AddMultiples(base + a, b, META_ALIGN);
    AddMultiples(base + a + b, c, META_ALIGN);
    AddMultiples(base + a + b + c, d, META_ALIGN);
  }

  /** The Cr samples lie one byte behind the Cb samples, in the same plane. */
  lemma CrBesideCb(v: Venus, base: nat, width: nat, height: nat)
    requires AllFit(v, width, height) && v.uvStride(width) >= 2 && v.uvScanlines(height) > 0
    ensures var p, plane := UbwcPlanes(v, base, width, height), Planes(v, base, width, height)[3];
            plane.start == p.cb && p.cr == p.cb + 1 && p.cr < plane.start + plane.size && p.cStride == plane.stride
  {
    PlaneHoldsIff(v.uvStride(width), v.uvScanlines(height));
    TimesMono(v.uvStride(width), 1, v.uvScanlines(height));
    assert Times(v.uvStride(width), 1) == v.uvStride(width);
  }
}
