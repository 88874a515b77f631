/** What the YV12 conversion means: the samples of the planar image, found through the plane information of
    the allocator, are the samples of the converted semi-planar image found in the same way.
 */
module Yv12Samples {
  import opened Alignment
  import opened Bytes
  import opened Rows
  import opened PlaneLayout
  import GrallocLayout
  import opened Yv12Converter

  /** What the conversion writes. */
  function Converted(src: seq<byte>, w: nat, h: nat, pad: nat): seq<byte>
    requires pad <= w && w * h <= |src|
  {
    src[..w * h] + ChromaPlane(src[w * h..], w, w - pad, h)
  }

  lemma HalfFits(w: nat)
    ensures w / 2 <= ChromaWidth(w)
  {
  }

  /** Chroma pair `n` of the converted plane is sample `m` of the two planes. */
  predicate PairFrom(plane: seq<byte>, n: nat, chroma: seq<byte>, m: nat, cSize: nat) {
    2 * n + 1 < |plane| && m + cSize < |chroma| && plane[2 * n] == chroma[m] && plane[2 * n + 1] == chroma[m + cSize]
  }

  lemma ChromaPair(chroma: seq<byte>, w: nat, h: nat, pad: nat, r: nat, c: nat)
    requires pad <= w && h % 2 == 0 && r < h / 2 && c < (w - pad) / 2 && 2 * ChromaSize(w, h) <= |chroma|
    ensures PairFrom(ChromaPlane(chroma, w, w - pad, h), RowStart(c, (w - pad) / 2, r), chroma,
                     RowStart(c, ChromaWidth(w), r), ChromaSize(w, h))
  {
    RowOf(c, (w - pad) / 2, r);
    RowOf(c, ChromaWidth(w), r);
    HalfFits(w);
    ChromaFits(w, h);
    PathsAgree(chroma, w, w - pad, h);
    SamplePlaced(chroma, (w - pad) / 2, h / 2, ChromaWidth(w), ChromaSize(w, h), r, c);
  }

  /** Both behind the luma. */
  lemma PairBehindLuma(src: seq<byte>, y: nat, plane: seq<byte>, n: nat, m: nat, cSize: nat)
    requires y <= |src| && PairFrom(plane, n, src[y..], m, cSize)
    ensures var converted := src[..y] + plane;
            && y + 2 * n + 1 < |converted| && y + m + cSize < |src|
            && converted[y + 2 * n] == src[y + m] && converted[y + 2 * n + 1] == src[y + m + cSize]
  {
    assert src[y..][m] == src[y + m] && src[y..][m + cSize] == src[y + m + cSize];
  }

  /** The byte of a sample in the converted image is its byte in the planar one. */
  predicate Carried(src: seq<byte>, i: nat, converted: seq<byte>, j: nat) {
    i < |src| && j < |converted| && converted[j] == src[i]
  }

  /** Every sample of an image without padding is carried over: the byte at which a client finds it in the
      converted image is the byte at which it is in the planar one. */
  lemma SamplesCarried(src: seq<byte>, w: nat, h: nat, s: Sample)
    requires w % 2 == 0 && 0 < h && h % 2 == 0 && 2 * w * h < TWO_32 && AlignUp(w / 2, 16) * h < TWO_32
    requires w * h + 2 * ChromaSize(w, h) <= |src| && InImage(GrallocLayout.YCrCb420SP, w, h, s)
    ensures Carried(src, Offset(GrallocLayout.YV12, PlaneInfo(GrallocLayout.YV12, w, h), s), Converted(src, w, h, 0),
                    Offset(GrallocLayout.YCrCb420SP, PlaneInfo(GrallocLayout.YCrCb420SP, w, h), s))
  {
    PlanesByFormat(w, h);
    PlanesCarried(src, w, h, s, PlaneInfo(GrallocLayout.YV12, w, h), PlaneInfo(GrallocLayout.YCrCb420SP, w, h));
  }

  /** The same for these planes. */
  lemma PlanesCarried(src: seq<byte>, w: nat, h: nat, s: Sample, from: Planes, to: Planes)
    requires w % 2 == 0 && h % 2 == 0 && w * h + 2 * ChromaSize(w, h) <= |src|
    requires InImage(GrallocLayout.YCrCb420SP, w, h, s)
    requires from == Planes(0, w * h + ChromaSize(w, h), w * h, w, ChromaWidth(w), 1) && Pairs(to, w, w * h, 2, true)
    ensures Carried(src, Offset(GrallocLayout.YV12, from, s), Converted(src, w, h, 0),
                    Offset(GrallocLayout.YCrCb420SP, to, s))
  {
    if s.Y? {
      LumaCarried(src, w, h, s.row, s.col);
    } else {
      ChromaSampleCarried(src, w * h, w, h, s, from, to);
    }
  }

  lemma ChromaSampleCarried(src: seq<byte>, y: nat, w: nat, h: nat, s: Sample, from: Planes, to: Planes)
    requires w % 2 == 0 && h % 2 == 0 && y + 2 * ChromaSize(w, h) <= |src|
    requires !s.Y? && InImage(GrallocLayout.YCrCb420SP, w, h, s)
    requires from == Planes(0, y + ChromaSize(w, h), y, w, ChromaWidth(w), 1) && Pairs(to, w, y, 2, true)
    ensures Carried(src, Offset(GrallocLayout.YV12, from, s), src[..y] + ChromaPlane(src[y..], w, w, h),
                    Offset(GrallocLayout.YCrCb420SP, to, s))
  {
    ChromaPair(src[y..], w, h, 0, s.row, s.col);
    ChromaCarried(src, w, s, from, to, y, ChromaPlane(src[y..], w, w, h), ChromaWidth(w), ChromaSize(w, h));
  }

  lemma ChromaCarried(src: seq<byte>, w: nat, s: Sample, from: Planes, to: Planes, y: nat, plane: seq<byte>, cWidth: nat,
                      cSize: nat)
    requires !s.Y? && w % 2 == 0 && from == Planes(0, y + cSize, y, w, cWidth, 1) && Pairs(to, w, y, 2, true)
    requires y <= |src|
    requires PairFrom(plane, RowStart(s.col, w / 2, s.row), src[y..], RowStart(s.col, cWidth, s.row), cSize)
    ensures Carried(src, Offset(GrallocLayout.YV12, from, s), src[..y] + plane, Offset(GrallocLayout.YCrCb420SP, to, s))
  {
    PairBehindLuma(src, y, plane, RowStart(s.col, w / 2, s.row), RowStart(s.col, cWidth, s.row), cSize);
    ChromaOffsets(w, s, from, to, y, cWidth, cSize);
  }

  lemma LumaCarried(src: seq<byte>, w: nat, h: nat, r: nat, c: nat)
    requires w * h <= |src| && r < h && c < w
    ensures Carried(src, RowStart(0, w, r) + c, Converted(src, w, h, 0), RowStart(0, w, r) + c)
  {
    RowOf(0, w, r);
    SampleInRange(r, c, h, w);
    assert h * w == w * h;
  }

  /** The offsets of a chroma sample in the two layouts. */
  lemma ChromaOffsets(w: nat, s: Sample, from: Planes, to: Planes, y: nat, cWidth: nat, cSize: nat)
    requires !s.Y? && w % 2 == 0 && from == Planes(0, y + cSize, y, w, cWidth, 1) && Pairs(to, w, y, 2, true)
    ensures Offset(GrallocLayout.YV12, from, s) == y + RowStart(s.col, cWidth, s.row) + if s.Cb? then cSize else 0
    ensures Offset(GrallocLayout.YCrCb420SP, to, s) == y + 2 * RowStart(s.col, w / 2, s.row) + if s.Cb? then 1 else 0
  {
    var r, c := s.row, s.col;
    RowStartIsTimes(if s.Cb? then y + cSize else y, cWidth, r);
    RowStartIsTimes(c, cWidth, r);
    RowStartIsTimes(if s.Cb? then y + 1 else y, w, r);
    RowStartIsTimes(c, w / 2, r);
    TimesTwice(w / 2, r);
    StepsOf(c);
  }

  lemma StepsOf(c: nat)
    ensures Times(1, c) == c && Times(2, c) == 2 * c
  {
    TimesIsProduct(1, c);
    TimesIsProduct(2, c);
  }

  lemma RowOf(start: nat, stride: nat, r: nat)
    ensures RowStart(start, stride, r) == start + r * stride
  {
    RowStartIsTimes(start, stride, r);
    TimesIsProduct(stride, r);
  }

  lemma TwiceHalf(r: nat, w: nat, c: nat)
    requires w % 2 == 0
    ensures 2 * (r * (w / 2) + c) == r * w + 2 * c
  {
    var half := w / 2;
    assert r * w == r * (2 * half) == 2 * (r * half);
  }

  /** Chroma pair (r, c) is where the semi-planar layout with stride `w` has it. */
  predicate InPlace(w: nat, half: nat, r: nat, c: nat) {
    2 * (r * half + c) == r * w + 2 * c
  }

  /** The converted chroma has rows of the visible width, and so is in its place, for every pair, if and only
      if that is the stride, or there is at most one row of pairs or none in a row. */
  lemma ChromaInPlaceIff(w: nat, half: nat, rows: nat)
    ensures (forall r: nat, c: nat :: r < rows && c < half ==> InPlace(w, half, r, c)) <==>
            2 * half == w || rows <= 1 || half == 0
  {
    if 2 * half == w {
      forall r: nat, c: nat
        ensures InPlace(w, half, r, c)
      {
        TwiceHalf(r, w, c);
      }
    } else if rows > 1 && half > 0 {
      assert !InPlace(w, half, 1, 0);
    }
  }

  /** An image of 8 by 4 of which 4 columns are visible: the second row of chroma of the semi-planar layout
      starts where the converted image has already ended. */
  lemma PaddingMovesChroma(src: seq<byte>)
    requires |src| == 96
    ensures |Converted(src, 8, 4, 4)| == 40
    ensures Offset(GrallocLayout.YCrCb420SP, PlaneInfo(GrallocLayout.YCrCb420SP, 8, 4), Cr(1, 0)) == 40
  {
    PlaneLength(src[32..], 8, 4, 4);
    SecondRow();
  }

  lemma PlaneLength(chroma: seq<byte>, stride: nat, width: nat, height: nat)
    requires height % 2 == 0
    ensures |ChromaPlane(chroma, stride, width, height)| == 2 * (height / 2 * (width / 2))
  {
    PathsAgree(chroma, stride, width, height);
    PackedLength(chroma, width / 2, ChromaWidth(stride), ChromaSize(stride, height), height / 2, 0);
  }

  lemma SecondRow()
    ensures Offset(GrallocLayout.YCrCb420SP, PlaneInfo(GrallocLayout.YCrCb420SP, 8, 4), Cr(1, 0)) == 40
  {
    var p := PlaneInfo(GrallocLayout.YCrCb420SP, 8, 4);
    assert p.cr == 32 && p.cStride == 8 by {
      PlanesByFormat(8, 4);
    }
    RowOf(32, 8, 1);
    assert Times(p.chromaStep, 0) == 0;
  }
}
