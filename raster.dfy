/** Pixels, layers and stamps of the painter, and the few pixel operations
    of the imaging library the painting engine relies on: pasting a stamp
    through its own alpha, clipping a layer by the circle mask, and
    source-over compositing. Only what the engine needs of them is exact:
    a zero mask or zero source alpha leaves the destination pixel as it was,
    an opaque destination stays opaque. */
module Raster {
  import opened Wrappers
  import opened Geometry
  import opened Colour

  /** One 8-bit channel. */
  type Byte = x: int | 0 <= x < 256

  datatype Pixel = Pixel(r: Byte, g: Byte, b: Byte, a: Byte)

  const Transparent: Pixel := Pixel(0, 0, 0, 0)
  const Black: Pixel := Pixel(0, 0, 0, 255)
  const White: Pixel := Pixel(255, 255, 255, 255)

  /** A W×H layer stored row by row: pixel (x, y) at index y * W + x. */
  type Layer = seq<Pixel>

  /** Whether the pixel at index i of a W×H layer lies in the canvas circle. */
  predicate InCircleAt(w: int, h: int, i: int)
    requires 0 < w
  {
    InsideCircle(w, h, i % w, i / w)
  }

  /** The main image the painter starts from and `clear` restores: opaque
      black with an opaque white disc inscribed. */
  function InitialImage(w: int, h: int): (img: Layer)
    requires 0 < w && 0 <= h
    ensures |img| == w * h
  {
    seq(w * h, i requires 0 <= i < w * h => if InCircleAt(w, h, i) then White else Black)
  }

  /** `Image.new("RGBA", (W, H), (0, 0, 0, 0))`. */
  function TransparentLayer(n: nat): (l: Layer)
    ensures |l| == n && AllTransparent(l)
  {
    seq(n, _ => Transparent)
  }

  predicate AllTransparent(l: Layer) {
    forall i :: 0 <= i < |l| ==> l[i] == Transparent
  }

  predicate Opaque(img: Layer) {
    forall i :: 0 <= i < |img| ==> img[i].a == 255
  }

  predicate OutsideIsBlack(w: int, h: int, img: Layer)
    requires 0 < w
  {
    forall i :: 0 <= i < |img| && !InCircleAt(w, h, i) ==> img[i] == Black
  }

  /** What every main image and every undo snapshot satisfies: full size,
      fully opaque, and opaque black outside the circle, as it was drawn at
      start-up. */
  predicate CanvasImage(w: int, h: int, img: Layer)
    requires 0 < w
  {
    |img| == w * h && Opaque(img) && OutsideIsBlack(w, h, img)
  }

  lemma InitialImageIsCanvas(w: int, h: int)
    requires 0 < w && 0 <= h
    ensures CanvasImage(w, h, InitialImage(w, h))
    ensures forall i :: 0 <= i < w * h && InCircleAt(w, h, i) ==> InitialImage(w, h)[i] == White
  {
  }

  function Min(a: int, b: int): int { if a <= b then a else b }
  function Max(a: int, b: int): int { if a <= b then b else a }

  lemma MulMono(a: int, b: int, c: int)
    requires a <= b && 0 <= c
    ensures a * c <= b * c
  {
  }

  /** An integer quotient of a number between lo·d and hi·d lies between
      lo and hi. */
  lemma DivBetween(x: int, d: int, lo: int, hi: int)
    requires 0 < d && lo * d <= x <= hi * d
    ensures lo <= x / d <= hi
  {
    var q := x / d;
    assert q * d <= x < (q + 1) * d;
    if q < lo {
      MulMono(q + 1, lo, d);
    }
    if q > hi {
      MulMono(hi + 1, q, d);
    }
  }

  lemma WeightedBounds(s: int, d: int, ws: int, wd: int)
    requires 0 <= ws && 0 <= wd && 0 < ws + wd
    ensures Min(s, d) * (ws + wd) <= s * ws + d * wd <= Max(s, d) * (ws + wd)
  {
    var lo, hi := Min(s, d), Max(s, d);
    MulMono(lo, s, ws);
    MulMono(lo, d, wd);
    MulMono(s, hi, ws);
    MulMono(d, hi, wd);
    assert lo * (ws + wd) == lo * ws + lo * wd;
    assert hi * (ws + wd) == hi * ws + hi * wd;
  }

  /** A weighted average of two channels, rounded down: between the two. */
  function Average(s: Byte, d: Byte, ws: int, wd: int): (c: Byte)
    requires 0 <= ws && 0 <= wd && 0 < ws + wd
    ensures Min(s, d) <= c <= Max(s, d)
    ensures wd == 0 ==> c == s
    ensures ws == 0 ==> c == d
  {
    var x := s * ws + d * wd;
    WeightedBounds(s, d, ws, wd);
    DivBetween(x, ws + wd, Min(s, d), Max(s, d));
    assert wd == 0 ==> x / (ws + wd) == s by {
      if wd == 0 { DivBetween(x, ws + wd, s, s); }
    }
    assert ws == 0 ==> x / (ws + wd) == d by {
      if ws == 0 { DivBetween(x, ws + wd, d, d); }
    }
    x / (ws + wd)
  }

  /** `paste(stamp, box, mask=stamp)` at one pixel: the stamp's alpha `m`
      blends all four channels, m/255 of the stamp over (255-m)/255 of
      the layer. */
  function PasteBlend(dst: Pixel, src: Pixel): (p: Pixel)
    ensures src.a == 0 ==> p == dst
    ensures src.a == 255 ==> p == src
  {
    var m := src.a;
    Pixel(Average(src.r, dst.r, m, 255 - m), Average(src.g, dst.g, m, 255 - m),
          Average(src.b, dst.b, m, 255 - m), Average(src.a, dst.a, m, 255 - m))
  }

  /** `Image.alpha_composite(dst, src)` at one pixel: source over
      destination. A source of alpha 0 is skipped, as the library does. */
  function Over(dst: Pixel, src: Pixel): (p: Pixel)
    ensures src.a == 0 ==> p == dst
    ensures dst.a == 255 ==> p.a == 255
    ensures src.a == 255 ==> p == src
  {
    if src.a == 0 then dst
    else
      var ws := src.a * 255;
      var wd := dst.a * (255 - src.a);
      MulMono(dst.a, 255, 255 - src.a);
      assert ws + wd <= 255 * 255;
      Pixel(Average(src.r, dst.r, ws, wd), Average(src.g, dst.g, ws, wd),
            Average(src.b, dst.b, ws, wd), (ws + wd + 127) / 255)
  }

  /** `ImageChops.multiply` of two 8-bit values. */
  function Multiply(a: Byte, m: Byte): (c: Byte)
    ensures m == 255 ==> c == a
    ensures m == 0 ==> c == 0
    ensures c <= a
  {
    MulMono(m, 255, a);
    a * m / 255
  }

  /** The circle mask: 255 inside the circle, 0 outside. */
  function MaskAt(w: int, h: int, i: int): (m: Byte)
    requires 0 < w
    ensures m == 0 || m == 255
    ensures m == 255 <==> InCircleAt(w, h, i)
  {
    if InCircleAt(w, h, i) then 255 else 0
  }

  /** The stroke layer with its alpha multiplied by the circle mask
      (`putalpha(multiply(alpha, circle_mask))`). */
  function ClipToCircle(w: int, h: int, layer: Layer): (r: Layer)
    requires 0 < w
    ensures |r| == |layer|
  {
    seq(|layer|, i requires 0 <= i < |layer| =>
      var p := layer[i]; Pixel(p.r, p.g, p.b, Multiply(p.a, MaskAt(w, h, i))))
  }

  /** `getbbox()` of a layer is not None: some pixel is visible. A layer
      with nothing visible has every alpha 0. */
  predicate AnyVisible(layer: Layer): (b: bool)
    ensures !b <==> forall i :: 0 <= i < |layer| ==> layer[i].a == 0
  {
    exists i :: 0 <= i < |layer| && layer[i].a != 0
  }

  /** What `on_release` makes of the main image: the stroke layer, clipped
      to the circle when anything is visible on it, composited over it. */
  function Merge(w: int, h: int, main: Layer, stroke: Layer): (r: Layer)
    requires 0 < w && |main| == |stroke|
    ensures |r| == |main|
  {
    var masked := if AnyVisible(stroke) then ClipToCircle(w, h, stroke) else stroke;
    seq(|main|, i requires 0 <= i < |main| => Over(main[i], masked[i]))
  }

  /** Clip correctness: a merge leaves every pixel outside the circle as it
      was, whatever the stroke layer holds there. */
  lemma MergeOutsideUnchanged(w: int, h: int, main: Layer, stroke: Layer, i: int)
    requires 0 < w && |main| == |stroke| && 0 <= i < |main|
    requires !InCircleAt(w, h, i)
    ensures Merge(w, h, main, stroke)[i] == main[i]
  {
    if !AnyVisible(stroke) {
      assert stroke[i].a == 0;
    }
  }

  /** Inside the circle the clip changes nothing: the merged pixel is the
      stroke pixel composited over the main pixel. */
  lemma MergeInsideComposites(w: int, h: int, main: Layer, stroke: Layer, i: int)
    requires 0 < w && |main| == |stroke| && 0 <= i < |main|
    requires InCircleAt(w, h, i)
    ensures Merge(w, h, main, stroke)[i] == Over(main[i], stroke[i])
  {
    if !AnyVisible(stroke) {
      assert stroke[i].a == 0;
    }
  }

  /** A release with nothing visible on the stroke layer leaves the main
      image as it was. */
  lemma MergeNothingVisible(w: int, h: int, main: Layer, stroke: Layer)
    requires 0 < w && |main| == |stroke| && !AnyVisible(stroke)
    ensures Merge(w, h, main, stroke) == main
  {
    forall i | 0 <= i < |main|
      ensures Merge(w, h, main, stroke)[i] == main[i]
    {
      assert stroke[i].a == 0;
    }
  }

  /** Where the stroke layer is transparent, a merge leaves the main image
      as it was. */
  lemma MergeTransparentUnchanged(w: int, h: int, main: Layer, stroke: Layer, i: int)
    requires 0 < w && |main| == |stroke| && 0 <= i < |main|
    requires stroke[i].a == 0
    ensures Merge(w, h, main, stroke)[i] == main[i]
  {
  }

  /** A merged canvas image is still a canvas image: full size, opaque, and
      untouched outside the circle. */
  lemma MergeKeepsCanvas(w: int, h: int, main: Layer, stroke: Layer)
    requires 0 < w && |main| == |stroke| && CanvasImage(w, h, main)
    ensures CanvasImage(w, h, Merge(w, h, main, stroke))
  {
    var r := Merge(w, h, main, stroke);
    forall i | 0 <= i < |r| && !InCircleAt(w, h, i)
      ensures r[i] == Black
    {
      MergeOutsideUnchanged(w, h, main, stroke, i);
    }
  }

  /** A raster of w×h pixels, row by row: a stamp, or a brush image. */
  datatype Bitmap = Bitmap(w: nat, h: nat, px: seq<Pixel>) {
    predicate Valid() {
      |px| == w * h
    }
  }

  /** The box a stamp covers when its top-left corner is at (sx, sy). */
  function StampBox(st: Bitmap, sx: int, sy: int): Box {
    Box(sx, sy, sx + st.w, sy + st.h)
  }

  lemma RowMajorIndex(x: int, y: int, w: int, h: int)
    requires 0 <= x < w && 0 <= y < h
    ensures 0 <= y * w + x < w * h
  {
    MulMono(y, h - 1, w);
  }

  /** An index below w*h falls in one of the h rows. */
  lemma RowBound(k: int, w: int, h: int)
    requires 0 < w && 0 <= k < w * h
    ensures 0 <= k / w < h
  {
    var q := k / w;
    if q >= h {
      MulMono(h, q, w);
    }
  }

  /** Scaling an index below n by s/n gives an index below s. */
  lemma ScaledIndex(x: int, n: int, s: int)
    requires 0 <= x < n && 1 <= s
    ensures 0 <= x * s / n < s
  {
    MulMono(x + 1, n, s);
    RowBound(x * s, n, s);
  }

  /** The stamp pixel that covers layer pixel (x, y). */
  function StampPixelAt(st: Bitmap, sx: int, sy: int, x: int, y: int): Pixel
    requires st.Valid() && InBox(StampBox(st, sx, sy), x, y)
  {
    RowMajorIndex(x - sx, y - sy, st.w, st.h);
    st.px[(y - sy) * st.w + (x - sx)]
  }

  /** One pixel of `layer.paste(stamp, (sx, sy), stamp)` on a layer of
      width lw: the pixel at index i is blended through the stamp's alpha
      when the stamp covers it, and left alone otherwise. */
  function PastePixel(dst: Pixel, i: int, lw: int, st: Bitmap, sx: int, sy: int): (p: Pixel)
    requires 0 < lw && st.Valid()
    ensures !InBox(StampBox(st, sx, sy), i % lw, i / lw) ==> p == dst
  {
    if InBox(StampBox(st, sx, sy), i % lw, i / lw) then
      PasteBlend(dst, StampPixelAt(st, sx, sy, i % lw, i / lw))
    else dst
  }

  /** `layer.paste(stamp, (sx, sy), stamp)` on a whole layer of width lw;
      the part of the stamp off the layer is dropped. */
  function Paste(layer: Layer, lw: int, st: Bitmap, sx: int, sy: int): (r: Layer)
    requires 0 < lw && st.Valid()
    ensures |r| == |layer|
    ensures forall i :: 0 <= i < |layer| && !InBox(StampBox(st, sx, sy), i % lw, i / lw) ==> r[i] == layer[i]
  {
    seq(|layer|, i requires 0 <= i < |layer| => PastePixel(layer[i], i, lw, st, sx, sy))
  }

  /** A stamp pixel of alpha 0 leaves the layer pixel under it unchanged. */
  lemma PasteClearStampPixel(layer: Layer, lw: int, st: Bitmap, sx: int, sy: int, i: int)
    requires 0 < lw && st.Valid() && 0 <= i < |layer|
    requires InBox(StampBox(st, sx, sy), i % lw, i / lw)
    requires StampPixelAt(st, sx, sy, i % lw, i / lw).a == 0
    ensures Paste(layer, lw, st, sx, sy)[i] == layer[i]
  {
  }

  /** `int(clamp(opacity, 1, 100) * 2.55)` evaluated in binary64: for
      opacity 1..99 the product truncates to floor(opacity * 255 / 100);
      for 100 it is 254.99999999999997 and truncates to 254. */
  function OpacityAlpha(opacity: int): (a: Byte)
    ensures 2 <= a <= 254
  {
    var o := Clamp(opacity, 1, 100);
    if o == 100 then 254 else o * 255 / 100
  }

  /** Even full opacity never yields a fully opaque stamp. */
  lemma FullOpacityIsNotOpaque()
    ensures OpacityAlpha(100) == 254 && OpacityAlpha(1000) == 254
  {
  }

  /** More opacity never gives less alpha. */
  lemma OpacityAlphaMonotonic(o1: int, o2: int)
    requires o1 <= o2
    ensures OpacityAlpha(o1) <= OpacityAlpha(o2)
  {
    var c1, c2 := Clamp(o1, 1, 100), Clamp(o2, 1, 100);
    MulMono(c1, c2, 255);
  }

  /** `ImageEnhance.Brightness(alpha).enhance(a / 255)`: an alpha value
      scaled by a/255. */
  function ScaleAlpha(v: Byte, a: Byte): (r: Byte)
    ensures r <= v
    ensures v == 0 ==> r == 0
  {
    Multiply(v, a)
  }

  /** The disc mask of a `size`×`size` dab: 255 inside the inscribed circle. */
  function DiscMask(size: nat, k: int): Byte
    requires 0 < size
  {
    if InsideCircle(size, size, k % size, k / size) then 255 else 0
  }

  /** The three bytes of a brush colour. */
  datatype Rgb8 = Rgb8(r: Byte, g: Byte, b: Byte)

  /** The default pencil dab: the brush colour at full strength under a disc
      mask, the mask darkened by the opacity alpha when that is below 255. */
  function PencilDab(size: nat, c: Rgb8, alpha: Byte): (st: Bitmap)
    requires 0 < size
    ensures st.Valid() && st.w == size && st.h == size
  {
    Bitmap(size, size, seq(size * size, k requires 0 <= k < size * size =>
      var m := DiscMask(size, k);
      Pixel(c.r, c.g, c.b, if alpha < 255 then ScaleAlpha(m, alpha) else m)))
  }

  /** The fallback dab: `Image.new(color_rgba(color, alpha))` followed by
      `putalpha(mask)`, which replaces the opacity alpha by the disc mask. */
  function FallbackDab(size: nat, c: Rgb8, alpha: Byte): (st: Bitmap)
    requires 0 < size
    ensures st.Valid() && st.w == size && st.h == size
  {
    Bitmap(size, size, seq(size * size, k requires 0 <= k < size * size =>
      Pixel(c.r, c.g, c.b, DiscMask(size, k))))
  }

  /** The fallback brush ignores opacity: its alpha is the mask alone. */
  lemma FallbackDabIgnoresOpacity(size: nat, c: Rgb8, a1: Byte, a2: Byte)
    requires 0 < size
    ensures FallbackDab(size, c, a1) == FallbackDab(size, c, a2)
  {
  }

  /** The hard-disc dabs of this model never reach outside their inscribed
      disc. */
  lemma DabsClearOutsideDisc(size: nat, c: Rgb8, alpha: Byte, k: int)
    requires 0 < size && 0 <= k < size * size
    requires !InsideCircle(size, size, k % size, k / size)
    ensures PencilDab(size, c, alpha).px[k].a == 0
    ensures FallbackDab(size, c, alpha).px[k].a == 0
  {
  }

  /** The size `_make_stamp_from_image` resizes a w×h brush image to: the
      longer side becomes `size`, the shorter one
      `max(1, int(shorter * size / longer))`. */
  function ImageStampSize(sw: int, sh: int, size: int): (d: (int, int))
    requires 1 <= sw && 1 <= sh
    ensures sw >= sh ==> d == (size, ScaledSide(sh, sw, size))
    ensures sw < sh ==> d == (ScaledSide(sw, sh, size), size)
  {
    if sw >= sh then (size, ScaledSide(sh, sw, size))
    else (ScaledSide(sw, sh, size), size)
  }

  lemma NegativeQuotient(a: int, b: int)
    requires a < 0 < b
    ensures a as real / b as real < 0.0
  {
    assert (a as real / b as real) * b as real == a as real;
  }

  /** What `int(short * size / long)` is, before the clamp to one pixel. */
  lemma ScaledQuotient(short: int, long: int, size: int, q: int)
    requires 1 <= short <= long
    requires q == Trunc((short * size) as real / long as real)
    ensures 0 <= size ==> 0 <= q <= size
    ensures 0 <= size && long <= short * size ==> 1 <= q && q * long <= short * size < (q + 1) * long
    ensures short * size < long ==> q < 1
  {
    var p := short * size;
    if 0 <= size {
      MulMono(0, short, size);
      TruncQuotient(p, long);
      ShorterSide(short, long, size);
      QuotientBounds(p, long);
    } else {
      MulMono(size, -1, short);
      NegativeQuotient(p, long);
    }
  }

  lemma QuotientBounds(p: int, d: int)
    requires 0 <= p && 0 < d
    ensures (p / d) * d <= p < (p / d + 1) * d
    ensures p < d ==> p / d == 0
  {
  }

  /** `max(1, int(short * size / long))`: the shorter side scaled in
      proportion, rounded toward zero, and at least one pixel. */
  function ScaledSide(short: int, long: int, size: int): (n: int)
    requires 1 <= short <= long
    ensures 1 <= n
    ensures 1 <= size ==> n <= size
    ensures short * size < long ==> n == 1
    ensures 0 <= size && long <= short * size ==> n * long <= short * size < (n + 1) * long
  {
    var q := Trunc((short * size) as real / long as real);
    ScaledQuotient(short, long, size, q);
    if q < 1 then 1 else q
  }

  /** The proportional size of the shorter side, rounded down, is at most
      the longer side's. */
  lemma ShorterSide(short: int, long: int, size: int)
    requires 1 <= short <= long && 0 <= size
    ensures 0 <= short * size / long <= size
    ensures long <= short * size ==> 1 <= short * size / long
  {
    MulMono(short, long, size);
    MulMono(0, short, size);
    var x := short * size;
    DivBetween(x, long, 0, size);
    if long <= x {
      DivBetween(x, long, 1, size);
    }
  }

  /** Nearest-neighbour resampling of a brush image's alpha channel to
      nw×nh (the source resizes bicubically). */
  function ResampleAlpha(src: Bitmap, nw: int, nh: int, k: int): Byte
    requires src.Valid() && 1 <= src.w && 1 <= src.h && 1 <= nw && 1 <= nh && 0 <= k < nw * nh
  {
    var x, y := k % nw, k / nw;
    RowBound(k, nw, nh);
    ScaledIndex(x, nw, src.w);
    ScaledIndex(y, nh, src.h);
    var sx, sy := x * src.w / nw, y * src.h / nh;
    RowMajorIndex(sx, sy, src.w, src.h);
    src.px[sy * src.w + sx].a
  }

  /** A freshly built image-brush stamp: the brush colour at full strength
      with the resized image's alpha (a loaded brush is always RGBA, so its
      own alpha band is used). */
  function ImageStampBase(src: Bitmap, nw: int, nh: int, c: Rgb8): (st: Bitmap)
    requires src.Valid() && 1 <= src.w && 1 <= src.h && 1 <= nw && 1 <= nh
    ensures st.Valid() && st.w == nw && st.h == nh
  {
    Bitmap(nw, nh, seq(nw * nh, k requires 0 <= k < nw * nh =>
      Pixel(c.r, c.g, c.b, ResampleAlpha(src, nw, nh, k))))
  }

  /** A copy of a stamp with its alpha scaled by the opacity alpha. */
  function ScaleOpacity(st: Bitmap, a: Byte): (r: Bitmap)
    requires st.Valid()
    ensures r.Valid() && r.w == st.w && r.h == st.h
    ensures forall k :: 0 <= k < |st.px| ==>
      r.px[k].a <= st.px[k].a && r.px[k].(a := 0) == st.px[k].(a := 0)
  {
    Bitmap(st.w, st.h, seq(|st.px|, k requires 0 <= k < |st.px| =>
      st.px[k].(a := ScaleAlpha(st.px[k].a, a))))
  }
}
