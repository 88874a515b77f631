/** Software conversion of planar YV12 images to interleaved chroma.

    A handle's memory is an array of bytes. Sizes are unbounded naturals: the arithmetic of the
    source is modelled where it does not wrap around 32 bits.
 */
module Yv12Converter {
  import opened Alignment
  import opened Bytes

  function ChromaWidth(stride: nat): nat {
    AlignUp(stride / 2, 16)
  }

  function ChromaSize(stride: nat, height: nat): nat {
    ChromaWidth(stride) * height / 2
  }

  /** The packed chroma plane up to sample (r, i): the visible samples in row order, `half` to a row,
      each followed by its partner from the second plane. */
  function Packed(chroma: seq<byte>, half: nat, cWidth: nat, cSize: nat, r: nat, i: nat): seq<byte>
    decreases r, i
  {
    if i > 0 then
      var at := r * cWidth + i - 1;
      Packed(chroma, half, cWidth, cSize, r, i - 1) + [At(chroma, at), At(chroma, at + cSize)]
    else if r > 0 then Packed(chroma, half, cWidth, cSize, r - 1, half)
    else []
  }

  lemma {:induction false} PackedLength(chroma: seq<byte>, half: nat, cWidth: nat, cSize: nat, r: nat, i: nat)
    ensures |Packed(chroma, half, cWidth, cSize, r, i)| == 2 * (r * half + i)
    decreases r, i
  {
    if i > 0 {
      PackedLength(chroma, half, cWidth, cSize, r, i - 1);
    } else if r > 0 {
      PackedLength(chroma, half, cWidth, cSize, r - 1, half);
      assert r * half == (r - 1) * half + half;
    }
  }

  /** Packing more samples only appends. */
  lemma {:induction false} PackedPrefix(chroma: seq<byte>, half: nat, cWidth: nat, cSize: nat,
                                        r: nat, i: nat, r': nat, i': nat)
    requires i <= half && i' <= half && (r < r' || (r == r' && i <= i'))
    ensures Packed(chroma, half, cWidth, cSize, r, i) <= Packed(chroma, half, cWidth, cSize, r', i')
    decreases r', i'
  {
    if r == r' && i == i' {
    } else if i' > 0 {
      PackedPrefix(chroma, half, cWidth, cSize, r, i, r', i' - 1);
    } else {
      PackedPrefix(chroma, half, cWidth, cSize, r, i, r' - 1, half);
    }
  }

  lemma SampleInRange(r: nat, i: nat, rows: nat, width: nat)
    requires r < rows && i < width
    ensures r * width + i < rows * width
  {
    MulMono(width, r + 1, rows);
    assert width * (r + 1) == r * width + width && width * rows == rows * width;
  }

  /** Sample (r, i) of the image lands at position n = r * half + i of the packed plane, next to its
      partner, and is read from inside the two planes. */
  lemma SamplePlaced(chroma: seq<byte>, half: nat, rows: nat, cWidth: nat, cSize: nat, r: nat, i: nat)
    requires r < rows && i < half <= cWidth && rows * cWidth <= cSize && 2 * cSize <= |chroma|
    ensures var n := r * half + i;
            var packed := Packed(chroma, half, cWidth, cSize, rows, 0);
            && |packed| == 2 * (rows * half) && n < rows * half && r * cWidth + i < cSize
            && packed[2 * n] == chroma[r * cWidth + i]
            && packed[2 * n + 1] == chroma[r * cWidth + i + cSize]
  {
    SampleInRange(r, i, rows, half);
    SampleInRange(r, i, rows, cWidth);
    PackedLength(chroma, half, cWidth, cSize, rows, 0);
    PackedLength(chroma, half, cWidth, cSize, r, i);
    PackedPrefix(chroma, half, cWidth, cSize, r, i + 1, rows, 0);
    var upTo := Packed(chroma, half, cWidth, cSize, r, i + 1);
    assert upTo[2 * (r * half + i)] == chroma[r * cWidth + i];
  }

  /** One more sample: what it appends, and that both the read and the write stay inside the planes. */
  lemma PackedStep(chroma: seq<byte>, half: nat, rows: nat, cWidth: nat, cSize: nat, r: nat, i: nat)
    requires r < rows && i < half <= cWidth && rows * cWidth <= cSize && 2 * cSize <= |chroma|
    ensures 0 <= r * cWidth + i < cSize
    ensures |Packed(chroma, half, cWidth, cSize, r, i)| + 2 <= 2 * cSize
    ensures Packed(chroma, half, cWidth, cSize, r, i + 1)
         == Packed(chroma, half, cWidth, cSize, r, i)
          + [chroma[r * cWidth + i], chroma[r * cWidth + i + cSize]]
    ensures Packed(chroma, half, cWidth, cSize, r + 1, 0) == Packed(chroma, half, cWidth, cSize, r, half)
  {
    SampleInRange(r, i, rows, half);
    SampleInRange(r, i, rows, cWidth);
    PackedLength(chroma, half, cWidth, cSize, r, i);
    MulMono(rows, half, cWidth);
  }

  /** Store a chroma pair at row `r2`, column `j` of a destination `width` bytes wide; when the row
      has one byte left the second byte opens the next row. */
  method StorePair(dst: array<byte>, base: nat, width: nat, r2: nat, j: nat, a: byte, b: byte, ghost at: nat)
    returns (r2': nat, j': nat)
    requires j < width && width >= 2 && r2 * width + j == at && base + at + 1 < dst.Length
    modifies dst
    ensures dst[..] == old(dst[..])[base + at := a][base + at + 1 := b]
    ensures r2' * width + j' == at + 2 && j' <= width
  {
    r2', j' := r2, j;
    if j' + 1 == width {
      dst[base + (r2' * width + j')] := a;
      assert (r2 + 1) * width == r2 * width + width;
      r2' := r2' + 1;
      dst[base + r2' * width] := b;
      j' := 1;
    } else {
      dst[base + (r2' * width + j')] := a;
      dst[base + (r2' * width + j' + 1)] := b;
      j' := j' + 2;
    }
  }

  /** One iteration that copies: sample (r1, i) of both planes goes to row `r2`, column `j`. */
  method CopySample(src: array<byte>, dst: array<byte>, ySize: nat, width: nat, rows: nat, cWidth: nat,
                    cSize: nat, r1: nat, i: nat, r2: nat, j: nat, ghost was: seq<byte>, ghost done: seq<byte>)
    returns (r2': nat, j': nat)
    requires src != dst && width >= 2 && j < width && r2 * width + j == |done|
    requires r1 < rows && i < width / 2 <= cWidth && rows * cWidth <= cSize
    requires ySize + 2 * cSize <= src.Length && ySize + 2 * cSize <= |was| && |was| == dst.Length
    requires Overlaid(dst[..], was, ySize, done)
    requires done == Packed(src[ySize..], width / 2, cWidth, cSize, r1, i)
    modifies dst
    ensures Overlaid(dst[..], was, ySize, Packed(src[ySize..], width / 2, cWidth, cSize, r1, i + 1))
    ensures |Packed(src[ySize..], width / 2, cWidth, cSize, r1, i + 1)| == |done| + 2
    ensures r2' * width + j' == |done| + 2 && j' <= width
  {
    ghost var chroma := src[ySize..];
    PackedStep(chroma, width / 2, rows, cWidth, cSize, r1, i);
    var at := r1 * cWidth + i;
    assert at < cSize;
    var a, b := src[ySize + at], src[ySize + at + cSize];
    assert a == chroma[at] && b == chroma[at + cSize];
    ghost var next := done + [a, b];
    assert next == Packed(chroma, width / 2, cWidth, cSize, r1, i + 1);
    OverlayNext(was, ySize, done, a, b);
    r2', j' := StorePair(dst, ySize, width, r2, j, a, b, |done|);
    assert Overlaid(dst[..], was, ySize, next);
  }

  /** The loop for images whose chroma rows are padded: it overlays exactly the packed plane. */
  method InterleavePadded(src: array<byte>, dst: array<byte>, ySize: nat,
                          width: nat, height: nat, cWidth: nat, cSize: nat)
    requires src != dst
    requires width >= 2 || height < 2
    requires width / 2 <= cWidth && height / 2 * cWidth <= cSize
    requires ySize + 2 * cSize <= src.Length && ySize + 2 * cSize <= dst.Length
    modifies dst
    ensures Overlaid(dst[..], old(dst[..]), ySize,
                     Packed(src[ySize..], width / 2, cWidth, cSize, height / 2, 0))
  {
    var half, rows := width / 2, height / 2;
    ghost var was, done := dst[..], [];
    var r1: nat, r2: nat, i: nat, j: nat := 0, 0, 0, 0;
    while r1 < rows
      invariant r1 <= rows && (if r1 < rows then i < half else i == 0)
      invariant r2 * width + j == |done| && j <= width
      invariant done == Packed(src[ySize..], half, cWidth, cSize, r1, i)
      invariant Overlaid(dst[..], was, ySize, done)
      decreases rows - r1, half - i, if j == width then 1 else 0
    {
      if j == width {
        assert (r2 + 1) * width == r2 * width + width;
        j := 0;
        r2 := r2 + 1;
        continue;
      }
      r2, j := CopySample(src, dst, ySize, width, rows, cWidth, cSize, r1, i, r2, j, was, done);
      i := i + 1;
      done := Packed(src[ySize..], half, cWidth, cSize, r1, i);
      if i == half {
        i := 0;
        r1 := r1 + 1;
      }
    }
  }

  /** The padded loop's control state, and what one iteration does to it; the column counter is a 32-bit
      integer. */
  datatype Cursor = Cursor(r1: nat, r2: nat, i: nat, j: nat)

  function Advance(c: Cursor, width: nat): Cursor {
    if c.j == width then c.(j := 0, r2 := c.r2 + 1)
    else
      var wrap := c.j + 1 == width;
      var d := c.(r2 := if wrap then c.r2 + 1 else c.r2, j := if wrap then 1 else c.j + 2,
                   i := (c.i + 1) % TWO_32);
      if d.i == width / 2 then d.(i := 0, r1 := d.r1 + 1) else d
  }

  function Iterate(width: nat, steps: nat): Cursor {
    if steps == 0 then Cursor(0, 0, 0, 0) else Advance(Iterate(width, steps - 1), width)
  }

  /** InterleavePadded demands a width of at least 2, or no chroma rows. On an empty image the loop never
      finishes its first row; on an image of width 1 it leaves a row only when its column counter wraps,
      after 2^32 samples where the row has none. */
  lemma {:induction false} NarrowImageRows(width: nat, steps: nat)
    requires width < 2
    ensures width == 0 ==> Iterate(width, steps).r1 == 0 && Iterate(width, steps).j == 0
    ensures width == 1 ==>
              && Iterate(width, steps).j == steps % 2
              && Iterate(width, steps).i == ((steps + 1) / 2) % TWO_32
              && Iterate(width, steps).r1 == ((steps + 1) / 2) / TWO_32
  {
    if steps > 0 {
      NarrowImageRows(width, steps - 1);
      if width == 1 && (steps - 1) % 2 == 0 {
        assert (steps + 1) / 2 == steps / 2 + 1;
        NextSample(steps / 2);
      }
    }
  }

  lemma NextSample(n: nat)
    ensures (n + 1) % TWO_32 == (n % TWO_32 + 1) % TWO_32
    ensures (n + 1) / TWO_32 == n / TWO_32 + if (n + 1) % TWO_32 == 0 then 1 else 0
  {
  }

  // ---------------------------------------------------------------------------------------------
  // Unpadded chroma: scalar and vector paths
  // ---------------------------------------------------------------------------------------------

  /** The first `n` bytes of two adjacent planes of `cSize` bytes, interleaved. */
  function Zipped(chroma: seq<byte>, cSize: nat, n: nat): (r: seq<byte>)
    ensures |r| == 2 * n
  {
    if n == 0 then [] else Zipped(chroma, cSize, n - 1) + [At(chroma, n - 1), At(chroma, n - 1 + cSize)]
  }

  /** Without padding, packing row by row is zipping the planes. */
  lemma {:induction false} PackedIsZipped(chroma: seq<byte>, half: nat, cSize: nat, r: nat, i: nat)
    ensures Packed(chroma, half, half, cSize, r, i) == Zipped(chroma, cSize, r * half + i)
    decreases r, i
  {
    if i > 0 {
      PackedIsZipped(chroma, half, cSize, r, i - 1);
    } else if r > 0 {
      PackedIsZipped(chroma, half, cSize, r - 1, half);
      assert r * half == (r - 1) * half + half;
    }
  }

  lemma ZipNext(now: seq<byte>, was: seq<byte>, base: nat, chroma: seq<byte>, cSize: nat, n: nat)
    requires n < cSize && 2 * cSize <= |chroma| && base + 2 * cSize <= |was|
    requires Overlaid(now, was, base, Zipped(chroma, cSize, n))
    ensures base + 2 * n + 1 < |now|
    ensures Overlaid(now[base + 2 * n := chroma[n]][base + 2 * n + 1 := chroma[n + cSize]],
                     was, base, Zipped(chroma, cSize, n + 1))
  {
    OverlayNext(was, base, Zipped(chroma, cSize, n), chroma[n], chroma[n + cSize]);
  }

  /** Store pair `n`, given its two bytes. */
  method StoreZipped(dst: array<byte>, base: nat, n: nat, a: byte, b: byte,
                     ghost chroma: seq<byte>, ghost cSize: nat, ghost was: seq<byte>)
    requires n < cSize && 2 * cSize <= |chroma| && base + 2 * cSize <= |was| == dst.Length
    requires Overlaid(dst[..], was, base, Zipped(chroma, cSize, n))
    requires a == chroma[n] && b == chroma[n + cSize]
    modifies dst
    ensures Overlaid(dst[..], was, base, Zipped(chroma, cSize, n + 1))
  {
    ghost var before := dst[..];
    ZipNext(before, was, base, chroma, cSize, n);
    dst[base + n * 2] := a;
    dst[base + n * 2 + 1] := b;
    assert dst[..] == before[base + 2 * n := a][base + 2 * n + 1 := b];
  }

  method InterleaveScalar(src: array<byte>, dst: array<byte>, ySize: nat, cSize: nat)
    requires src != dst
    requires ySize + 2 * cSize <= src.Length && ySize + 2 * cSize <= dst.Length
    modifies dst
    ensures Overlaid(dst[..], old(dst[..]), ySize, Zipped(src[ySize..], cSize, cSize))
  {
    ghost var was, chroma := dst[..], src[ySize..];
    for i := 0 to cSize
      invariant Overlaid(dst[..], was, ySize, Zipped(chroma, cSize, i))
    {
      StoreZipped(dst, ySize, i, src[ySize + i], src[ySize + i + cSize], chroma, cSize, was);
    }
  }

  /** Store eight interleaved pairs. */
  method StoreLanes(dst: array<byte>, base: nat, t: nat, d0: seq<byte>, d1: seq<byte>,
                    ghost chroma: seq<byte>, ghost cSize: nat, ghost was: seq<byte>)
    requires t + 8 <= cSize && 2 * cSize <= |chroma| && base + 2 * cSize <= |was| == dst.Length
    requires |d0| == |d1| == 8
    requires forall l :: 0 <= l < 8 ==> d0[l] == chroma[t + l] && d1[l] == chroma[t + l + cSize]
    requires Overlaid(dst[..], was, base, Zipped(chroma, cSize, t))
    modifies dst
    ensures Overlaid(dst[..], was, base, Zipped(chroma, cSize, t + 8))
  {
    for lane := 0 to 8
      invariant Overlaid(dst[..], was, base, Zipped(chroma, cSize, t + lane))
    {
      var n := t + lane;
      assert d0[lane] == chroma[n] && d1[lane] == chroma[n + cSize];
      StoreZipped(dst, base, n, d0[lane], d1[lane], chroma, cSize, was);
    }
  }

  /** The vector path zips whole groups of eight and has no scalar tail. */
  method InterleaveVector(src: array<byte>, dst: array<byte>, ySize: nat, cSize: nat)
    requires src != dst
    requires ySize + 2 * cSize <= src.Length && ySize + 2 * cSize <= dst.Length
    modifies dst
    ensures Overlaid(dst[..], old(dst[..]), ySize, Zipped(src[ySize..], cSize, cSize / 8 * 8))
  {
    ghost var was, chroma := dst[..], src[ySize..];
    for i := 0 to cSize / 8
      invariant Overlaid(dst[..], was, ySize, Zipped(chroma, cSize, i * 8))
    {
      var t := i * 8;
      var d0, d1 := src[ySize + t..ySize + t + 8], src[ySize + t + cSize..ySize + t + cSize + 8];
      StoreLanes(dst, ySize, t, d0, d1, chroma, cSize, was);
    }
  }

  lemma MulRegroup(q: nat, h: nat)
    ensures 16 * q * h == 16 * (q * h)
  {
  }

  /** The chroma plane size is a multiple of 8, so the vector path leaves no tail. */
  lemma ChromaSizeByEights(stride: nat, height: nat)
    ensures ChromaSize(stride, height) % 8 == 0
    ensures ChromaSize(stride, height) / 8 * 8 == ChromaSize(stride, height)
  {
    var c := ChromaWidth(stride);
    assert c % 16 == 0 by { AlignUpMultiple(stride / 2, 16); }
    var q := c / 16;
    MulRegroup(q, height);
    var m := q * height;
    assert c * height == 16 * m;
    assert 16 * m / 2 == 8 * m;
  }

  /** The interleaved chroma of an image of the given stride, visible width and height. */
  function ChromaPlane(chroma: seq<byte>, stride: nat, width: nat, height: nat): seq<byte> {
    var cWidth, cSize := ChromaWidth(stride), ChromaSize(stride, height);
    if cWidth == width / 2 then Zipped(chroma, cSize, cSize)
    else Packed(chroma, width / 2, cWidth, cSize, height / 2, 0)
  }

  lemma HalfProduct(c: nat, k: nat)
    ensures c * (2 * k) == 2 * (k * c) && c * (2 * k) / 2 == k * c
  {
  }

  lemma EvenChromaSize(stride: nat, height: nat)
    requires height % 2 == 0
    ensures ChromaSize(stride, height) == height / 2 * ChromaWidth(stride)
  {
    HalfProduct(ChromaWidth(stride), height / 2);
  }

  /** The paths agree: for an even height the padded and the unpadded form are the same plane. */
  lemma PathsAgree(chroma: seq<byte>, stride: nat, width: nat, height: nat)
    requires height % 2 == 0
    ensures ChromaPlane(chroma, stride, width, height)
         == Packed(chroma, width / 2, ChromaWidth(stride), ChromaSize(stride, height), height / 2, 0)
  {
    var cWidth, cSize := ChromaWidth(stride), ChromaSize(stride, height);
    if cWidth == width / 2 {
      EvenChromaSize(stride, height);
      PackedIsZipped(chroma, cWidth, cSize, height / 2, 0);
    }
  }

  lemma ChromaFits(stride: nat, height: nat)
    ensures height / 2 * ChromaWidth(stride) <= ChromaSize(stride, height)
  {
    var c := ChromaWidth(stride);
    MulMono(c, 2 * (height / 2), height);
    assert c * (2 * (height / 2)) == 2 * (height / 2 * c);
  }

  /** The chroma half of the conversion, on either instruction set. */
  method ConvertChroma(src: array<byte>, dst: array<byte>, w: nat, h: nat, pad: nat, neon: bool)
    requires pad <= w && src != dst
    requires w - pad >= 2 || h < 2 || ChromaWidth(w) == (w - pad) / 2
    requires w * h + 2 * ChromaSize(w, h) <= src.Length && w * h + 2 * ChromaSize(w, h) <= dst.Length
    modifies dst
    ensures Overlaid(dst[..], old(dst[..]), w * h, ChromaPlane(src[w * h..], w, w - pad, h))
  {
    ChromaFits(w, h);
    ChromaSizeByEights(w, h);
    Interleave(src, dst, w * h, w - pad, h, ChromaWidth(w), ChromaSize(w, h), neon);
  }

  /** The choice of the path, by the width and the size of a chroma plane. */
  method Interleave(src: array<byte>, dst: array<byte>, ySize: nat, width: nat, height: nat, cWidth: nat, cSize: nat,
                    neon: bool)
    requires src != dst && (width >= 2 || height < 2 || cWidth == width / 2)
    requires width / 2 <= cWidth && height / 2 * cWidth <= cSize && cSize / 8 * 8 == cSize
    requires ySize + 2 * cSize <= src.Length && ySize + 2 * cSize <= dst.Length
    modifies dst
    ensures Overlaid(dst[..], old(dst[..]), ySize,
                     if cWidth == width / 2 then Zipped(src[ySize..], cSize, cSize)
                     else Packed(src[ySize..], width / 2, cWidth, cSize, height / 2, 0))
  {
    if cWidth != width / 2 {
      InterleavePadded(src, dst, ySize, width, height, cWidth, cSize);
    } else if neon {
      InterleaveVector(src, dst, ySize, cSize);
    } else {
      InterleaveScalar(src, dst, ySize, cSize);
    }
  }

  /** The whole conversion: luma copied, chroma packed, the rest of the destination untouched. */
  method Convert(src: array?<byte>, dst: array?<byte>, w: nat, h: nat, pad: nat, neon: bool)
    returns (status: int)
    requires pad <= w
    requires w - pad >= 2 || h < 2 || ChromaWidth(w) == (w - pad) / 2
    requires src != null && dst != null ==>
               && src != dst
               && w * h + 2 * ChromaSize(w, h) <= src.Length
               && w * h + 2 * ChromaSize(w, h) <= dst.Length
    modifies if src == null || dst == null then {} else {dst}
    ensures status == if src == null || dst == null then -1 else 0
    ensures status == 0 ==>
              Overlaid(dst[..], old(dst[..]), 0,
                       src[..w * h] + ChromaPlane(src[w * h..], w, w - pad, h))
  {
    if src == null || dst == null {
      return -1;
    }
    ghost var was := dst[..];
    Memcpy(dst, 0, src, 0, w * h);
    assert src[0..0 + w * h] == src[..w * h];
    ConvertChroma(src, dst, w, h, pad, neon);
    OverlayTwice(was, src[..w * h], ChromaPlane(src[w * h..], w, w - pad, h));
    status := 0;
  }
}
