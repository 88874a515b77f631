/** Clipping, scaling, rotating and flipping of blit rectangles in the MDP copybit. */
module MdpRects {
  import opened Alignment
  import opened Rows

  /** Edges: left, top, right, bottom; the right and bottom edges are exclusive. */
  datatype Rect = Rect(l: int, t: int, r: int, b: int)

  /** Position and size, as the driver takes them. */
  datatype MdpRect = MdpRect(x: int, y: int, w: int, h: int)

  datatype Flags = Flags(flipH: bool, flipV: bool, rot90: bool)

  datatype Option<T> = None | Some(value: T)

  datatype Request = Request(dst: MdpRect, src: MdpRect)

  /** Storing a value in a 32-bit unsigned field. */
  function W32(x: int): nat {
    x % TWO_32
  }

  /** `mul * a / div` in 32-bit unsigned arithmetic, skipped when there is nothing to scale. */
  function MulDiv(a: nat, mul: int, div: nat): nat
    requires div > 0
  {
    if mul == div then a else W32(mul * a) / div
  }

  function Intersect(p: Rect, q: Rect): Rect {
    Rect(if p.l > q.l then p.l else q.l, if p.t > q.t then p.t else q.t,
         if p.r < q.r then p.r else q.r, if p.b < q.b then p.b else q.b)
  }

  predicate Nonempty(p: Rect) {
    p.b > p.t && p.r > p.l
  }

  // ---------------------------------------------------------------------------------------------
  // One axis
  // ---------------------------------------------------------------------------------------------

  /** Where the part of the destination from `delta` on, `len` long, comes from in the source. */
  datatype Span = Span(start: int, len: int)

  /** A scaled part placed in the source, from the other end if flipped. */
  function Place(lo: int, hi: int, d: nat, n: nat, flip: bool): Span {
    var x := W32(d + lo);
    Span(if flip then W32(lo + hi - (x + n)) else x, n)
  }

  function Axis(lo: int, hi: int, extent: nat, delta: nat, len: nat, flip: bool): Span
    requires extent > 0
  {
    Place(lo, hi, MulDiv(delta, hi - lo, extent), MulDiv(len, hi - lo, extent), flip)
  }

  lemma PlaceExact(lo: int, hi: int, d: nat, n: nat, flip: bool)
    requires 0 <= lo < hi < TWO_32 / 2 && d + n <= hi - lo
    ensures Place(lo, hi, d, n, flip) == Span(if flip then hi - d - n else lo + d, n)
  {
  }

  /** Nothing wraps on this axis. */
  predicate Fits(mul: nat, div: nat) {
    mul == div || mul * div < TWO_32
  }

  /** Rounded quotients: what two parts give together is at most what their sum gives. */
  lemma QuotientsAdd(m: nat, d: nat, a: nat, b: nat)
    requires d > 0 && a + b <= d
    ensures Quotient(Times(m, a), d) + Quotient(Times(m, b), d) <= m
  {
    QuotientsOrdered(m, d, a, b, d);
    TimesComm(m, d);
    QuotientOfTimes(d, m);
  }

  /** Parts that follow each other: the first ends before the second starts. */
  lemma QuotientsOrdered(m: nat, d: nat, a: nat, n: nat, b: nat)
    requires d > 0 && a + n <= b
    ensures Quotient(Times(m, a), d) + Quotient(Times(m, n), d) <= Quotient(Times(m, b), d)
  {
    var x, y, z := Times(m, a), Times(m, n), Times(m, b);
    assert x + y <= z by {
      TimesAdd(m, a, n);
      TimesMono(m, a + n, b);
    }
    QuotientBounds(x, d);
    QuotientBounds(y, d);
    QuotientBounds(z, d);
    RoundedDown(d, Quotient(x, d), Quotient(y, d), Quotient(z, d), x, y, z);
  }

  lemma RoundedDown(d: nat, p: nat, q: nat, r: nat, x: nat, y: nat, z: nat)
    requires Times(d, p) <= x && Times(d, q) <= y && x + y <= z < Times(d, r) + d
    ensures p + q <= r
  {
    TimesAdd(d, p, q);
    if r < p + q {
      TimesMono(d, r, p + q);
    }
  }

  lemma MulDivExact(a: nat, mul: nat, div: nat)
    requires div > 0 && a <= div && Fits(mul, div)
    ensures MulDiv(a, mul, div) == Quotient(Times(mul, a), div)
  {
    if mul == div {
      QuotientOfTimes(div, a);
    } else {
      MulMono(mul, a, div);
      DividedProduct(mul, a, div);
    }
  }

  lemma DividedProduct(mul: nat, a: nat, div: nat)
    requires div > 0
    ensures (mul * a) / div == Quotient(Times(mul, a), div)
  {
    TimesIsProduct(mul, a);
    QuotientIsDivision(mul * a, div);
  }

  lemma PartsWithin(mul: nat, div: nat, delta: nat, len: nat)
    requires div > 0 && delta + len <= div && Fits(mul, div)
    ensures MulDiv(delta, mul, div) + MulDiv(len, mul, div) <= mul
  {
    MulDivExact(delta, mul, div);
    MulDivExact(len, mul, div);
    QuotientsAdd(mul, div, delta, len);
  }

  lemma PartsOrdered(mul: nat, div: nat, delta: nat, len: nat, delta': nat)
    requires div > 0 && delta + len <= delta' <= div && Fits(mul, div)
    ensures MulDiv(delta, mul, div) + MulDiv(len, mul, div) <= MulDiv(delta', mul, div)
  {
    MulDivExact(delta, mul, div);
    MulDivExact(len, mul, div);
    MulDivExact(delta', mul, div);
    QuotientsOrdered(mul, div, delta, len, delta');
  }

  predicate Inside(s: Span, lo: int, hi: int) {
    lo <= s.start && 0 <= s.len && s.start + s.len <= hi
  }

  predicate Before(s: Span, s': Span) {
    s.start + s.len <= s'.start
  }

  lemma AxisInside(lo: int, hi: int, extent: nat, delta: nat, len: nat, flip: bool)
    requires 0 <= lo < hi < TWO_32 / 2 && extent > 0 && delta + len <= extent && Fits(hi - lo, extent)
    ensures Inside(Axis(lo, hi, extent, delta, len, flip), lo, hi)
  {
    var d, n := MulDiv(delta, hi - lo, extent), MulDiv(len, hi - lo, extent);
    assert d + n <= hi - lo by {
      PartsWithin(hi - lo, extent, delta, len);
    }
    PlaceExact(lo, hi, d, n, flip);
  }

  lemma AxisDisjoint(lo: int, hi: int, extent: nat, delta: nat, len: nat, delta': nat, len': nat, flip: bool)
    requires 0 <= lo < hi < TWO_32 / 2 && extent > 0 && Fits(hi - lo, extent)
    requires delta + len <= delta' && delta' + len' <= extent
    ensures var s, s' := Axis(lo, hi, extent, delta, len, flip), Axis(lo, hi, extent, delta', len', flip);
            if flip then Before(s', s) else Before(s, s')
  {
    var m := hi - lo;
    var d, n, d', n' := MulDiv(delta, m, extent), MulDiv(len, m, extent), MulDiv(delta', m, extent), MulDiv(len', m, extent);
    assert d + n <= d' && d' + n' <= m by {
      PartsOrdered(m, extent, delta, len, delta');
      PartsWithin(m, extent, delta', len');
    }
    PlaceExact(lo, hi, d, n, flip);
    PlaceExact(lo, hi, d', n', flip);
  }

  /** The whole destination comes from the whole source exactly when the scaling does not wrap. */
  lemma AxisWholeIff(lo: int, hi: int, extent: nat, flip: bool)
    requires 0 <= lo < hi < TWO_32 / 2 && extent > 0
    ensures Axis(lo, hi, extent, 0, extent, flip) == Span(lo, hi - lo) <==> Fits(hi - lo, extent)
  {
    var d, n := MulDiv(0, hi - lo, extent), MulDiv(extent, hi - lo, extent);
    assert d == 0 && (n == hi - lo <==> Fits(hi - lo, extent)) by {
      MulDivWholeIff(hi - lo, extent);
    }
    if n == hi - lo {
      PlaceExact(lo, hi, d, n, flip);
    }
  }

  lemma MulDivWholeIff(m: nat, d: nat)
    requires d > 0
    ensures MulDiv(d, m, d) == m <==> Fits(m, d)
    ensures MulDiv(0, m, d) == 0
  {
    if m != d {
      QuotientIsDivision(W32(m * d), d);
      QuotientOfWrapped(m, d);
    }
  }

  lemma QuotientOfWrapped(m: nat, d: nat)
    requires d > 0
    ensures Quotient(W32(m * d), d) == m <==> m * d < TWO_32
  {
    TimesIsProduct(d, m);
    if m * d < TWO_32 {
      QuotientOfTimes(d, m);
    } else {
      var q := Quotient(W32(m * d), d);
      QuotientBounds(W32(m * d), d);
      if q >= m {
        TimesMono(d, m, q);
      }
    }
  }

  // ---------------------------------------------------------------------------------------------
  // Rectangles
  // ---------------------------------------------------------------------------------------------

  /** The horizontal and the vertical part of the source that belong to a clip of the destination. */
  function XSpan(f: Flags, dst: Rect, src: Rect, clip: Rect): Span
    requires Within(clip, dst)
  {
    if f.rot90 then Axis(src.l, src.r, dst.b - dst.t, clip.t - dst.t, clip.b - clip.t, f.flipV)
    else Axis(src.l, src.r, dst.r - dst.l, clip.l - dst.l, clip.r - clip.l, f.flipH)
  }

  function YSpan(f: Flags, dst: Rect, src: Rect, clip: Rect): Span
    requires Within(clip, dst)
  {
    if f.rot90 then Axis(src.t, src.b, dst.r - dst.l, dst.r - clip.r, clip.r - clip.l, f.flipH)
    else Axis(src.t, src.b, dst.b - dst.t, clip.t - dst.t, clip.b - clip.t, f.flipV)
  }

  function SourceRect(f: Flags, dst: Rect, src: Rect, clip: Rect): MdpRect
    requires Within(clip, dst)
  {
    var x, y := XSpan(f, dst, src, clip), YSpan(f, dst, src, clip);
    MdpRect(x.start, y.start, x.len, y.len)
  }

  predicate Within(clip: Rect, dst: Rect) {
    dst.l <= clip.l < clip.r <= dst.r && dst.t <= clip.t < clip.b <= dst.b
  }

  /** The rectangles of one request, or nothing if the clip is empty. */
  function RectsOf(f: Flags, dst: Rect, src: Rect, scissor: Rect): Option<Request> {
    var clip := Intersect(scissor, dst);
    if !Nonempty(clip) then None
    else
      Some(Request(MdpRect(W32(clip.l), W32(clip.t), clip.r - clip.l, clip.b - clip.t),
                   SourceRect(f, dst, src, clip)))
  }

  /** Moves a scaled part into the source and flips it within the source. */
  method PlaceAndFlip(f: Flags, src: Rect, deltaX: nat, deltaY: nat, w: nat, h: nat) returns (x: int, y: int)
    ensures x == Place(src.l, src.r, deltaX, w, if f.rot90 then f.flipV else f.flipH).start
    ensures y == Place(src.t, src.b, deltaY, h, if f.rot90 then f.flipH else f.flipV).start
  {
    x, y := W32(deltaX + src.l), W32(deltaY + src.t);
    if f.flipV {
      if f.rot90 {
        x := W32(src.l + src.r - (x + w));
      } else {
        y := W32(src.t + src.b - (y + h));
      }
    }
    if f.flipH {
      if f.rot90 {
        y := W32(src.t + src.b - (y + h));
      } else {
        x := W32(src.l + src.r - (x + w));
      }
    }
  }

  /** Fills in the rectangles of a request step by step. */
  method SetRects(f: Flags, dst: Rect, src: Rect, scissor: Rect) returns (req: Option<Request>)
    ensures req == RectsOf(f, dst, src, scissor)
  {
    var clip := Intersect(scissor, dst);
    if !Nonempty(clip) {
      return None;
    }
    var dstRect := MdpRect(W32(clip.l), W32(clip.t), clip.r - clip.l, clip.b - clip.t);
    var deltaX: nat, deltaY: nat, w: nat, h: nat, fullW: nat, fullH: nat;
    if f.rot90 {
      deltaX, deltaY := clip.t - dst.t, dst.r - clip.r;
      w, h := clip.b - clip.t, clip.r - clip.l;
      fullW, fullH := dst.b - dst.t, dst.r - dst.l;
    } else {
      deltaX, deltaY := clip.l - dst.l, clip.t - dst.t;
      w, h := clip.r - clip.l, clip.b - clip.t;
      fullW, fullH := dst.r - dst.l, dst.b - dst.t;
    }
    deltaX, w := MulDiv(deltaX, src.r - src.l, fullW), MulDiv(w, src.r - src.l, fullW);
    deltaY, h := MulDiv(deltaY, src.b - src.t, fullH), MulDiv(h, src.b - src.t, fullH);
    var x, y := PlaceAndFlip(f, src, deltaX, deltaY, w, h);
    req := Some(Request(dstRect, MdpRect(x, y, w, h)));
  }

  /** A source rectangle that has passed the checks of the stretch: in the image, hence not negative. */
  predicate ValidSource(src: Rect) {
    0 <= src.l < src.r < TWO_32 / 2 && 0 <= src.t < src.b < TWO_32 / 2
  }

  /** Neither axis wraps; rotation pairs source width with destination height. */
  predicate NoWrap(f: Flags, dst: Rect, src: Rect)
    requires Nonempty(dst) && Nonempty(src)
  {
    if f.rot90 then Fits(src.r - src.l, dst.b - dst.t) && Fits(src.b - src.t, dst.r - dst.l)
    else Fits(src.r - src.l, dst.r - dst.l) && Fits(src.b - src.t, dst.b - dst.t)
  }

  predicate InsideRect(s: MdpRect, src: Rect) {
    && src.l <= s.x && 0 <= s.w && s.x + s.w <= src.r
    && src.t <= s.y && 0 <= s.h && s.y + s.h <= src.b
  }

  /** For all eight transforms, the source of a clip lies inside the source rectangle. */
  lemma SourceInside(f: Flags, dst: Rect, src: Rect, clip: Rect)
    requires ValidSource(src) && Within(clip, dst) && NoWrap(f, dst, src)
    ensures InsideRect(SourceRect(f, dst, src, clip), src)
  {
    XInside(f, dst, src, clip);
    YInside(f, dst, src, clip);
    InsideFromSpans(XSpan(f, dst, src, clip), YSpan(f, dst, src, clip), src);
  }

  lemma XInside(f: Flags, dst: Rect, src: Rect, clip: Rect)
    requires ValidSource(src) && Within(clip, dst) && NoWrap(f, dst, src)
    ensures Inside(XSpan(f, dst, src, clip), src.l, src.r)
  {
    if f.rot90 {
      AxisInside(src.l, src.r, dst.b - dst.t, clip.t - dst.t, clip.b - clip.t, f.flipV);
    } else {
      AxisInside(src.l, src.r, dst.r - dst.l, clip.l - dst.l, clip.r - clip.l, f.flipH);
    }
  }

  lemma YInside(f: Flags, dst: Rect, src: Rect, clip: Rect)
    requires ValidSource(src) && Within(clip, dst) && NoWrap(f, dst, src)
    ensures Inside(YSpan(f, dst, src, clip), src.t, src.b)
  {
    if f.rot90 {
      AxisInside(src.t, src.b, dst.r - dst.l, dst.r - clip.r, clip.r - clip.l, f.flipH);
    } else {
      AxisInside(src.t, src.b, dst.b - dst.t, clip.t - dst.t, clip.b - clip.t, f.flipV);
    }
  }

  lemma InsideFromSpans(x: Span, y: Span, src: Rect)
    requires Inside(x, src.l, src.r) && Inside(y, src.t, src.b)
    ensures InsideRect(MdpRect(x.start, y.start, x.len, y.len), src)
  {
  }

  /** For all eight transforms, the whole destination comes from the whole source, exactly when the
      scaling does not wrap. */
  lemma WholeIff(f: Flags, dst: Rect, src: Rect)
    requires ValidSource(src) && Nonempty(dst)
    ensures SourceRect(f, dst, src, dst) == MdpRect(src.l, src.t, src.r - src.l, src.b - src.t)
            <==> NoWrap(f, dst, src)
  {
    if f.rot90 {
      AxisWholeIff(src.l, src.r, dst.b - dst.t, f.flipV);
      AxisWholeIff(src.t, src.b, dst.r - dst.l, f.flipH);
    } else {
      AxisWholeIff(src.l, src.r, dst.r - dst.l, f.flipH);
      AxisWholeIff(src.t, src.b, dst.b - dst.t, f.flipV);
    }
  }

  predicate Apart(p: MdpRect, q: MdpRect) {
    p.x + p.w <= q.x || q.x + q.w <= p.x || p.y + p.h <= q.y || q.y + q.h <= p.y
  }

  predicate SpansApart(s: Span, s': Span) {
    Before(s, s') || Before(s', s)
  }

  /** Clips that do not overlap have sources that do not overlap, in spite of rounding: the clips beside
      each other in the columns of a rotated image, or in the rows of an upright one. */
  lemma SourcesApart(f: Flags, dst: Rect, src: Rect, c: Rect, c': Rect)
    requires ValidSource(src) && Within(c, dst) && Within(c', dst) && NoWrap(f, dst, src)
    requires c.r <= c'.l || c'.r <= c.l || c.b <= c'.t || c'.b <= c.t
    ensures Apart(SourceRect(f, dst, src, c), SourceRect(f, dst, src, c'))
  {
    var x, x' := XSpan(f, dst, src, c), XSpan(f, dst, src, c');
    var y, y' := YSpan(f, dst, src, c), YSpan(f, dst, src, c');
    assert SpansApart(x, x') || SpansApart(y, y') by {
      if c.r <= c'.l {
        BesideApart(f, dst, src, c, c');
      } else if c'.r <= c.l {
        BesideApart(f, dst, src, c', c);
      } else if c.b <= c'.t {
        BelowApart(f, dst, src, c, c');
      } else {
        BelowApart(f, dst, src, c', c);
      }
    }
    ApartFromSpans(x, y, x', y');
  }

  lemma ApartFromSpans(x: Span, y: Span, x': Span, y': Span)
    requires SpansApart(x, x') || SpansApart(y, y')
    ensures Apart(MdpRect(x.start, y.start, x.len, y.len), MdpRect(x'.start, y'.start, x'.len, y'.len))
  {
  }

  lemma BesideApart(f: Flags, dst: Rect, src: Rect, c: Rect, c': Rect)
    requires ValidSource(src) && Within(c, dst) && Within(c', dst) && NoWrap(f, dst, src) && c.r <= c'.l
    ensures f.rot90 ==> SpansApart(YSpan(f, dst, src, c), YSpan(f, dst, src, c'))
    ensures !f.rot90 ==> SpansApart(XSpan(f, dst, src, c), XSpan(f, dst, src, c'))
  {
    if f.rot90 {
      TurnedBesideApart(f, dst, src, c, c');
    } else {
      AxisDisjoint(src.l, src.r, dst.r - dst.l, c.l - dst.l, c.r - c.l, c'.l - dst.l, c'.r - c'.l, f.flipH);
    }
  }

  lemma TurnedBesideApart(f: Flags, dst: Rect, src: Rect, c: Rect, c': Rect)
    requires ValidSource(src) && Within(c, dst) && Within(c', dst) && NoWrap(f, dst, src) && c.r <= c'.l && f.rot90
    ensures SpansApart(YSpan(f, dst, src, c), YSpan(f, dst, src, c'))
  {
    AxisDisjoint(src.t, src.b, dst.r - dst.l, dst.r - c'.r, c'.r - c'.l, dst.r - c.r, c.r - c.l, f.flipH);
  }

  lemma BelowApart(f: Flags, dst: Rect, src: Rect, c: Rect, c': Rect)
    requires ValidSource(src) && Within(c, dst) && Within(c', dst) && NoWrap(f, dst, src) && c.b <= c'.t
    ensures f.rot90 ==> SpansApart(XSpan(f, dst, src, c), XSpan(f, dst, src, c'))
    ensures !f.rot90 ==> SpansApart(YSpan(f, dst, src, c), YSpan(f, dst, src, c'))
  {
    if f.rot90 {
      TurnedBelowApart(f, dst, src, c, c');
    } else {
      AxisDisjoint(src.t, src.b, dst.b - dst.t, c.t - dst.t, c.b - c.t, c'.t - dst.t, c'.b - c'.t, f.flipV);
    }
  }

  lemma TurnedBelowApart(f: Flags, dst: Rect, src: Rect, c: Rect, c': Rect)
    requires ValidSource(src) && Within(c, dst) && Within(c', dst) && NoWrap(f, dst, src) && c.b <= c'.t && f.rot90
    ensures SpansApart(XSpan(f, dst, src, c), XSpan(f, dst, src, c'))
  {
    AxisDisjoint(src.l, src.r, dst.b - dst.t, c.t - dst.t, c.b - c.t, c'.t - dst.t, c'.b - c'.t, f.flipV);
  }

  // ---------------------------------------------------------------------------------------------
  // Which way up
  // ---------------------------------------------------------------------------------------------

  datatype Point = Point(x: int, y: int)

  predicate Contains(r: Rect, p: Point) {
    r.l <= p.x < r.r && r.t <= p.y < r.b
  }

  predicate Covers(r: MdpRect, p: Point) {
    r.x <= p.x < r.x + r.w && r.y <= p.y < r.y + r.h
  }

  /** The common part of two rectangles is made of the pixels of both. */
  lemma IntersectIsCommon(p: Rect, q: Rect, at: Point)
    ensures Contains(Intersect(p, q), at) <==> Contains(p, at) && Contains(q, at)
    ensures Nonempty(Intersect(p, q)) <==>
            Contains(Intersect(p, q), Point(Intersect(p, q).l, Intersect(p, q).t))
  {
  }

  /** Where a pixel of an image that is `h` high goes when the image is turned clockwise by 90 degrees. */
  function Turned(p: Point, h: int): Point {
    Point(h - 1 - p.y, p.x)
  }

  /** Where a pixel goes when an image that is `w` wide, or `h` high, is mirrored. */
  function MirroredH(p: Point, w: int): Point {
    Point(w - 1 - p.x, p.y)
  }

  function MirroredV(p: Point, h: int): Point {
    Point(p.x, h - 1 - p.y)
  }

  /** Where a pixel of the source goes: the image is turned first and mirrored then. `w` and `h` are the
      dimensions of the destination. */
  function Transformed(f: Flags, p: Point, w: int, h: int): Point {
    var turned := if f.rot90 then Turned(p, w) else p;
    var across := if f.flipH then MirroredH(turned, w) else turned;
    if f.flipV then MirroredV(across, h) else across
  }

  /** The destination pixel of a source pixel, when source and destination have the same size. */
  function Image(f: Flags, dst: Rect, src: Rect, p: Point): Point {
    var q := Transformed(f, Point(p.x - src.l, p.y - src.t), dst.r - dst.l, dst.b - dst.t);
    Point(q.x + dst.l, q.y + dst.t)
  }

  /** The source, turned if need be, has the size of the destination. */
  predicate SameSize(f: Flags, dst: Rect, src: Rect) {
    var w, h := src.r - src.l, src.b - src.t;
    if f.rot90 then h == dst.r - dst.l && w == dst.b - dst.t else w == dst.r - dst.l && h == dst.b - dst.t
  }

  lemma AxisUnscaled(lo: int, hi: int, extent: nat, delta: nat, len: nat, flip: bool)
    requires 0 <= lo < hi < TWO_32 / 2 && extent == hi - lo && delta + len <= extent
    ensures Axis(lo, hi, extent, delta, len, flip) == Span(if flip then hi - delta - len else lo + delta, len)
  {
    PlaceExact(lo, hi, delta, len, flip);
  }

  predicate On(s: Span, x: int) {
    s.start <= x < s.start + s.len
  }

  /** Position `x` lies in the span if and only if it goes into the part, from the other end when mirrored. */
  predicate TakenInto(s: Span, lo: int, hi: int, delta: int, len: int, flip: bool, x: int) {
    On(s, x) <==> delta <= (if flip then hi - 1 - x else x - lo) < delta + len
  }

  lemma AxisPreimage(lo: int, hi: int, extent: nat, delta: nat, len: nat, flip: bool, x: int)
    requires 0 <= lo < hi < TWO_32 / 2 && extent == hi - lo && delta + len <= extent
    ensures TakenInto(Axis(lo, hi, extent, delta, len, flip), lo, hi, delta, len, flip, x)
  {
    AxisUnscaled(lo, hi, extent, delta, len, flip);
  }

  /** For all eight transforms and without scaling, the source of a clip is exactly the set of pixels that
      the transform takes into the clip. */
  lemma SourceIsPreimage(f: Flags, dst: Rect, src: Rect, clip: Rect, p: Point)
    requires ValidSource(src) && Within(clip, dst) && SameSize(f, dst, src)
    ensures Covers(SourceRect(f, dst, src, clip), p) <==> Contains(clip, Image(f, dst, src, p))
  {
    XTaken(f, dst, src, clip, p.x);
    YTaken(f, dst, src, clip, p.y);
    PreimageFromSpans(f, dst, src, clip, p, XSpan(f, dst, src, clip), YSpan(f, dst, src, clip));
  }

  lemma XTaken(f: Flags, dst: Rect, src: Rect, clip: Rect, x: int)
    requires ValidSource(src) && Within(clip, dst) && SameSize(f, dst, src)
    ensures XTakenInto(f, dst, src, clip, XSpan(f, dst, src, clip), x)
  {
    if f.rot90 {
      AxisPreimage(src.l, src.r, dst.b - dst.t, clip.t - dst.t, clip.b - clip.t, f.flipV, x);
    } else {
      AxisPreimage(src.l, src.r, dst.r - dst.l, clip.l - dst.l, clip.r - clip.l, f.flipH, x);
    }
  }

  lemma YTaken(f: Flags, dst: Rect, src: Rect, clip: Rect, y: int)
    requires ValidSource(src) && Within(clip, dst) && SameSize(f, dst, src)
    ensures YTakenInto(f, dst, src, clip, YSpan(f, dst, src, clip), y)
  {
    if f.rot90 {
      AxisPreimage(src.t, src.b, dst.r - dst.l, dst.r - clip.r, clip.r - clip.l, f.flipH, y);
    } else {
      AxisPreimage(src.t, src.b, dst.b - dst.t, clip.t - dst.t, clip.b - clip.t, f.flipV, y);
    }
  }

  predicate XTakenInto(f: Flags, dst: Rect, src: Rect, clip: Rect, s: Span, x: int) {
    if f.rot90 then TakenInto(s, src.l, src.r, clip.t - dst.t, clip.b - clip.t, f.flipV, x)
    else TakenInto(s, src.l, src.r, clip.l - dst.l, clip.r - clip.l, f.flipH, x)
  }

  predicate YTakenInto(f: Flags, dst: Rect, src: Rect, clip: Rect, s: Span, y: int) {
    if f.rot90 then TakenInto(s, src.t, src.b, dst.r - clip.r, clip.r - clip.l, f.flipH, y)
    else TakenInto(s, src.t, src.b, clip.t - dst.t, clip.b - clip.t, f.flipV, y)
  }

  lemma PreimageFromSpans(f: Flags, dst: Rect, src: Rect, clip: Rect, p: Point, x: Span, y: Span)
    requires SameSize(f, dst, src) && XTakenInto(f, dst, src, clip, x, p.x) && YTakenInto(f, dst, src, clip, y, p.y)
    ensures Covers(MdpRect(x.start, y.start, x.len, y.len), p) <==> Contains(clip, Image(f, dst, src, p))
  {
  }

  datatype Side = Left | Top | Right | Bottom

  /** Where a side of the source ends up: turned clockwise, then mirrored. */
  function LandsOn(f: Flags, s: Side): Side {
    var turned := if !f.rot90 then s
                  else match s case Left => Top case Top => Right case Right => Bottom case Bottom => Left;
    match turned
    case Left => if f.flipH then Right else Left
    case Right => if f.flipH then Left else Right
    case Top => if f.flipV then Bottom else Top
    case Bottom => if f.flipV then Top else Bottom
  }

  /** How far a part keeps from a side of the whole. */
  function Gap(whole: Rect, part: Rect, s: Side): int {
    match s
    case Left => part.l - whole.l
    case Top => part.t - whole.t
    case Right => whole.r - part.r
    case Bottom => whole.b - part.b
  }

  /** The extent of a rectangle from this side to the opposite one. */
  function Extent(r: Rect, s: Side): int {
    if s.Left? || s.Right? then r.r - r.l else r.b - r.t
  }

  function Edges(r: MdpRect): Rect {
    Rect(r.x, r.y, r.x + r.w, r.y + r.h)
  }

  /** The sides that positions are measured from: the top, and the left or, for a turned image, the right. */
  predicate MeasuredFrom(f: Flags, t: Side) {
    t == Top || t == (if f.rot90 then Right else Left)
  }

  /** `gap` of `m` is what `clipGap` of `d` scales to: rounded down, or less than two too large. */
  predicate Scaled(m: int, gap: int, d: int, clipGap: int, down: bool) {
    && m > 0 && d > 0 && clipGap >= 0
    && if down then gap == Quotient(Times(m, clipGap), d)
       else gap >= 0 && Times(m, clipGap) <= Times(d, gap) < Times(m, clipGap) + 2 * d
  }

  predicate SpanScaled(s: Span, lo: int, hi: int, extent: int, delta: int, len: int, flip: bool) {
    && Scaled(hi - lo, if flip then hi - (s.start + s.len) else s.start - lo, extent, delta, true)
    && Scaled(hi - lo, if flip then s.start - lo else hi - (s.start + s.len), extent, extent - delta - len, false)
  }

  /** On one axis: the gap from the end that is measured from is rounded down; the gap at the other end is
      less than two pixels larger than the exact one. */
  lemma AxisGaps(lo: int, hi: int, extent: nat, delta: nat, len: nat, flip: bool)
    requires 0 <= lo < hi < TWO_32 / 2 && extent > 0 && delta + len <= extent && Fits(hi - lo, extent)
    ensures SpanScaled(Axis(lo, hi, extent, delta, len, flip), lo, hi, extent, delta, len, flip)
  {
    var m := hi - lo;
    var d, n, c := MulDiv(delta, m, extent), MulDiv(len, m, extent), extent - delta - len;
    PartsWithin(m, extent, delta, len);
    PlaceExact(lo, hi, d, n, flip);
    MulDivExact(delta, m, extent);
    MulDivExact(len, m, extent);
    RestRounded(m, extent, delta, len, c, d, n);
  }

  lemma RestRounded(m: nat, extent: nat, a: nat, b: nat, c: nat, d: nat, n: nat)
    requires extent > 0 && a + b + c == extent && d + n <= m
    requires d == Quotient(Times(m, a), extent) && n == Quotient(Times(m, b), extent)
    ensures Times(m, c) <= Times(extent, m - d - n) < Times(m, c) + 2 * extent
  {
    QuotientBounds(Times(m, a), extent);
    QuotientBounds(Times(m, b), extent);
    TimesAdd(m, a, b);
    TimesAdd(m, a + b, c);
    TimesAdd(extent, d, n);
    TimesAdd(extent, d + n, m - d - n);
    TimesComm(m, extent);
  }

  /** The gap of `part` from side `s` of the source, against that of the clip from side `t` of the
      destination. */
  predicate GapScaled(f: Flags, dst: Rect, src: Rect, clip: Rect, part: MdpRect, s: Side, t: Side) {
    Scaled(Extent(src, s), Gap(src, Edges(part), s), Extent(dst, t), Gap(dst, clip, t), MeasuredFrom(f, t))
  }

  predicate XScaled(f: Flags, dst: Rect, src: Rect, clip: Rect, s: Span) {
    if f.rot90 then SpanScaled(s, src.l, src.r, dst.b - dst.t, clip.t - dst.t, clip.b - clip.t, f.flipV)
    else SpanScaled(s, src.l, src.r, dst.r - dst.l, clip.l - dst.l, clip.r - clip.l, f.flipH)
  }

  predicate YScaled(f: Flags, dst: Rect, src: Rect, clip: Rect, s: Span) {
    if f.rot90 then SpanScaled(s, src.t, src.b, dst.r - dst.l, dst.r - clip.r, clip.r - clip.l, f.flipH)
    else SpanScaled(s, src.t, src.b, dst.b - dst.t, clip.t - dst.t, clip.b - clip.t, f.flipV)
  }

  lemma XGaps(f: Flags, dst: Rect, src: Rect, clip: Rect)
    requires ValidSource(src) && Within(clip, dst) && NoWrap(f, dst, src)
    ensures XScaled(f, dst, src, clip, XSpan(f, dst, src, clip))
  {
    if f.rot90 {
      AxisGaps(src.l, src.r, dst.b - dst.t, clip.t - dst.t, clip.b - clip.t, f.flipV);
      assert XSpan(f, dst, src, clip) == Axis(src.l, src.r, dst.b - dst.t, clip.t - dst.t, clip.b - clip.t, f.flipV);
    } else {
      AxisGaps(src.l, src.r, dst.r - dst.l, clip.l - dst.l, clip.r - clip.l, f.flipH);
      assert XSpan(f, dst, src, clip) == Axis(src.l, src.r, dst.r - dst.l, clip.l - dst.l, clip.r - clip.l, f.flipH);
    }
  }

  lemma YGaps(f: Flags, dst: Rect, src: Rect, clip: Rect)
    requires ValidSource(src) && Within(clip, dst) && NoWrap(f, dst, src)
    ensures YScaled(f, dst, src, clip, YSpan(f, dst, src, clip))
  {
    if f.rot90 {
      AxisGaps(src.t, src.b, dst.r - dst.l, dst.r - clip.r, clip.r - clip.l, f.flipH);
      assert YSpan(f, dst, src, clip) == Axis(src.t, src.b, dst.r - dst.l, dst.r - clip.r, clip.r - clip.l, f.flipH);
    } else {
      AxisGaps(src.t, src.b, dst.b - dst.t, clip.t - dst.t, clip.b - clip.t, f.flipV);
      assert YSpan(f, dst, src, clip) == Axis(src.t, src.b, dst.b - dst.t, clip.t - dst.t, clip.b - clip.t, f.flipV);
    }
  }

  lemma GapsFromSpans(f: Flags, dst: Rect, src: Rect, clip: Rect, x: Span, y: Span, s: Side)
    requires XScaled(f, dst, src, clip, x) && YScaled(f, dst, src, clip, y)
    ensures GapScaled(f, dst, src, clip, MdpRect(x.start, y.start, x.len, y.len), s, LandsOn(f, s))
  {
    assert dst.r - dst.l - (clip.l - dst.l) - (clip.r - clip.l) == dst.r - clip.r;
    assert dst.b - dst.t - (clip.t - dst.t) - (clip.b - clip.t) == dst.b - clip.b;
    assert dst.r - dst.l - (dst.r - clip.r) - (clip.r - clip.l) == clip.l - dst.l;
  }

  /** For all eight transforms at any scale: the gap that the source of a clip keeps from a side of the
      source is the gap of the clip from the side where that one lands, scaled; rounded down at the sides
      that are measured from, and less than two pixels too large at the others. */
  lemma GapsFollowTheTransform(f: Flags, dst: Rect, src: Rect, clip: Rect, s: Side)
    requires ValidSource(src) && Within(clip, dst) && NoWrap(f, dst, src)
    ensures GapScaled(f, dst, src, clip, SourceRect(f, dst, src, clip), s, LandsOn(f, s))
  {
    XGaps(f, dst, src, clip);
    YGaps(f, dst, src, clip);
    GapsFromSpans(f, dst, src, clip, XSpan(f, dst, src, clip), YSpan(f, dst, src, clip), s);
  }

  /** In particular, a clip at a side that is measured from has its source at the side that lands there. */
  lemma EdgesMeet(f: Flags, dst: Rect, src: Rect, clip: Rect, s: Side)
    requires ValidSource(src) && Within(clip, dst) && NoWrap(f, dst, src)
    requires MeasuredFrom(f, LandsOn(f, s)) && Gap(dst, clip, LandsOn(f, s)) == 0
    ensures Gap(src, Edges(SourceRect(f, dst, src, clip)), s) == 0
  {
    GapsFollowTheTransform(f, dst, src, clip, s);
    QuotientBounds(0, Extent(dst, LandsOn(f, s)));
  }
}
