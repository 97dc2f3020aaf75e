/** The painting engine of the circular-canvas painter: a stroke state
    machine (press, drag, release) over a persistent main image, a
    transparent stroke layer the stamps are pasted into, a capped undo
    history, the image-brush stamp cache, and the colour picker's
    pending/committed colour. */
module Painter {
  import opened Wrappers
  import opened Geometry
  import opened Colour
  import opened Raster
  import opened History

  /** The canvas is W×H pixels; the drawable area is its inscribed circle. */
  const W: int := 720
  const H: int := 720
  const UndoLimit: nat := 20

  /** Brush parameters: the engine never changes them after start-up. */
  const BrushSize: int := 22
  const Opacity: int := 100
  const Smoothing: real := 0.28
  const SpacingPct: int := 25

  /** The cache-key prefix of the loaded custom brush image. */
  const CustomPrefix: string := "__custom__"

  /** A pointer sample of the current stroke: position and time. */
  datatype Sample = Sample(x: int, y: int, t: real)

  /** A sample the engine records: only points inside the circle are kept. */
  type CircleSample = s: Sample | InsideCircle(W, H, s.x, s.y) witness Sample(W / 2, H / 2, 0.0)

  /** A hue, saturation or value of the colour picker: a real in [0, 1]. */
  type Fraction = r: real | Unit(r) witness 0.0

  /** The default pencil brush, or the image brush selected by loading a
      brush image. */
  datatype BrushKind = Pencil | ImageBrush

  datatype CacheKey = CacheKey(prefix: string, nw: int, nh: int)

  /** The three bytes `color_rgba` reads from a canonical colour string. */
  function ColourBytes(s: string): Rgb8
    requires CanonicalHex(s)
  {
    Rgb8(HexPair(s, 1), HexPair(s, 3), HexPair(s, 5))
  }

  /** Stamps are painted in exactly the colour `color_rgba` parses from the
      brush colour, fully opaque before opacity is applied. */
  lemma ColourBytesParse(s: string)
    requires CanonicalHex(s)
    ensures var c := ColourBytes(s); ColorRgba(s, 255) == Some(Rgba(c.r, c.g, c.b, 255))
  {
    CanonicalHexParses(s, 255);
  }

  /** Every colour the picker can produce is canonical, so stamps can be
      painted with it. */
  lemma PickerColourIsCanonical(h: real, s: real, v: real)
    requires Unit(h) && Unit(s) && Unit(v)
    ensures CanonicalHex(HsvHex(h, s, v))
  {
    var c := HsvToRgb(h, s, v);
    FormatHexCanonical(ToByte(c.r), ToByte(c.g), ToByte(c.b));
  }

  /** The picker's colour for (h, s, v), which is canonical. */
  function PickerColour(h: real, s: real, v: real): (c: HexColour)
    requires Unit(h) && Unit(s) && Unit(v)
    ensures c == HsvHex(h, s, v)
  {
    PickerColourIsCanonical(h, s, v);
    HsvHex(h, s, v)
  }

  /** A clamped position over the largest one is a fraction in [0, 1]. */
  lemma UnitFraction(a: int, m: int)
    requires 0 <= a <= m && 0 < m
    ensures Unit(a as real / m as real)
    ensures a == 0 ==> a as real / m as real == 0.0
  {
    DivLe(a as real, m as real, m as real);
    assert m as real / m as real == 1.0;
  }

  /** The saturation and value a click at (ex, ey) selects on a size×size
      square: the clamped column over the largest column, and one minus the
      clamped row over the largest row. */
  method SvAt(ex: int, ey: int, size: int) returns (s: Fraction, v: Fraction)
    requires 32 <= size
    ensures var x, y := Clamp(ex, 0, size - 1), Clamp(ey, 0, size - 1);
      s == x as real / (size - 1) as real && v == 1.0 - y as real / (size - 1) as real
    ensures ex <= 0 ==> s == 0.0
    ensures ey <= 0 ==> v == 1.0
  {
    var x, y := Clamp(ex, 0, size - 1), Clamp(ey, 0, size - 1);
    UnitFraction(x, size - 1);
    UnitFraction(y, size - 1);
    s, v := x as real / (size - 1) as real, 1.0 - y as real / (size - 1) as real;
  }

  /** A decoded brush image: a non-empty RGBA raster. */
  predicate GoodBrushImage(img: Bitmap) {
    img.Valid() && 1 <= img.w && 1 <= img.h
  }

  type BrushImage = img: Bitmap | GoodBrushImage(img) witness Bitmap(1, 1, [Transparent])

  /** A cached stamp has the size its key names. */
  predicate CacheSound(cache: map<CacheKey, Bitmap>) {
    forall k :: k in cache ==> cache[k].Valid() && cache[k].w == k.nw && cache[k].h == k.nh
  }

  type SoundCache = c: map<CacheKey, Bitmap> | CacheSound(c) witness map[]

  /** The cache key `_make_stamp_from_image` files the stamp of a brush
      image under, for the engine's brush size. */
  function StampKey(src: Bitmap): (k: CacheKey)
    requires GoodBrushImage(src)
    ensures k.prefix == CustomPrefix
    ensures src.w >= src.h ==> k.nw == BrushSize && 1 <= k.nh <= BrushSize
    ensures src.w < src.h ==> k.nh == BrushSize && 1 <= k.nw <= BrushSize
  {
    var d := ImageStampSize(src.w, src.h, BrushSize);
    CacheKey(CustomPrefix, d.0, d.1)
  }

  /** The uncoloured-by-opacity stamp for a brush image: the cached one
      when its key is present, a fresh one in the current colour otherwise. */
  function StampBase(cache: map<CacheKey, Bitmap>, src: Bitmap, colour: Rgb8): (st: Bitmap)
    requires CacheSound(cache) && GoodBrushImage(src)
    ensures st.Valid() && st.w == StampKey(src).nw && st.h == StampKey(src).nh
  {
    var k := StampKey(src);
    if k in cache then cache[k] else ImageStampBase(src, k.nw, k.nh, colour)
  }

  /** The cache after `_make_stamp_from_image` for a brush image: the
      stamp base is filed under the image's key when absent; no entry
      already present is replaced, and nothing else is added. */
  function CacheAfter(cache: map<CacheKey, Bitmap>, src: Bitmap, colour: Rgb8): (c: map<CacheKey, Bitmap>)
    requires CacheSound(cache) && GoodBrushImage(src)
    ensures CacheSound(c)
    ensures StampKey(src) in c && c[StampKey(src)] == StampBase(cache, src, colour)
    ensures forall k :: k in cache ==> k in c && c[k] == cache[k]
    ensures forall k :: k in c ==> k in cache || k == StampKey(src)
  {
    var k := StampKey(src);
    if k in cache then cache else cache[k := ImageStampBase(src, k.nw, k.nh, colour)]
  }

  /** The stamp `_stamp_at` pastes for the current brush state, read before
      the call updates the cache. */
  function BrushStamp(kind: BrushKind, image: Option<Bitmap>, cache: map<CacheKey, Bitmap>, colour: string): (st: Bitmap)
    requires CanonicalHex(colour) && CacheSound(cache)
    requires image.Some? ==> GoodBrushImage(image.value)
    ensures st.Valid() && 1 <= st.w <= BrushSize && 1 <= st.h <= BrushSize
    ensures kind == Pencil || image.None? ==> st.w == BrushSize && st.h == BrushSize
  {
    var alpha := OpacityAlpha(Opacity);
    if kind == Pencil then PencilDab(BrushSize, ColourBytes(colour), alpha)
    else if image.Some? then
      var base := StampBase(cache, image.value, ColourBytes(colour));
      if alpha < 255 then ScaleOpacity(base, alpha) else base
    else FallbackDab(BrushSize, ColourBytes(colour), alpha)
  }

  /** Once a size is cached, the image brush keeps painting the colour it
      was cached in: changing the brush colour does not change its stamp. */
  lemma CachedStampIgnoresColour(image: Bitmap, cache: map<CacheKey, Bitmap>, c1: string, c2: string)
    requires CanonicalHex(c1) && CanonicalHex(c2) && CacheSound(cache) && GoodBrushImage(image)
    requires StampKey(image) in cache
    ensures BrushStamp(ImageBrush, Some(image), cache, c1) == BrushStamp(ImageBrush, Some(image), cache, c2)
  {
  }

  /** The stamp's top-left corner for a stamp centred on (x, y):
      `int(x - w // 2)`, `int(y - h // 2)`. */
  function StampOrigin(x: real, y: real, st: Bitmap): (o: (int, int))
    ensures x == x.Floor as real ==> o.0 == x.Floor - st.w / 2
    ensures y == y.Floor as real ==> o.1 == y.Floor - st.h / 2
  {
    (Trunc(x - (st.w / 2) as real), Trunc(y - (st.h / 2) as real))
  }

  /** The cache after one `_stamp_at`: only the image brush with an image
      loaded consults the cache, and it files the stamp base as `CacheAfter`
      says; every other brush leaves the cache as it is. */
  function StampCache(kind: BrushKind, image: Option<Bitmap>, cache: map<CacheKey, Bitmap>, colour: string): (c: map<CacheKey, Bitmap>)
    requires CanonicalHex(colour) && CacheSound(cache)
    requires image.Some? ==> GoodBrushImage(image.value)
    ensures CacheSound(c)
    ensures forall k :: k in cache ==> k in c && c[k] == cache[k]
    ensures kind == Pencil || image.None? ==> c == cache
  {
    if kind == ImageBrush && image.Some? then CacheAfter(cache, image.value, ColourBytes(colour)) else cache
  }

  /** After one stamp, every later stamp of the same brush is the same
      stamp, and it leaves the cache as it is: the first stamp filed the
      base the later ones find. */
  lemma StampCacheStable(kind: BrushKind, image: Option<Bitmap>, cache: map<CacheKey, Bitmap>, colour: string)
    requires CanonicalHex(colour) && CacheSound(cache)
    requires image.Some? ==> GoodBrushImage(image.value)
    ensures var c := StampCache(kind, image, cache, colour);
      BrushStamp(kind, image, c, colour) == BrushStamp(kind, image, cache, colour)
      && StampCache(kind, image, c, colour) == c
  {
    if kind == ImageBrush && image.Some? {
      var src, rgb := image.value, ColourBytes(colour);
      var c := CacheAfter(cache, src, rgb);
      assert StampBase(c, src, rgb) == StampBase(cache, src, rgb);
      assert CacheAfter(c, src, rgb) == c;
    }
  }

  /** The box of a stamp centred on p. */
  function StampBoxAt(st: Bitmap, p: Point): Box {
    var o := StampOrigin(p.x, p.y, st);
    StampBox(st, o.0, o.1)
  }

  /** The boxes of the stamps centred on each of the first n of `ps`. */
  function StampBoxes(st: Bitmap, ps: seq<Point>, n: nat): (r: seq<Box>)
    requires n <= |ps|
    ensures |r| == n
  {
    if n == 0 then [] else StampBoxes(st, ps, n - 1) + [StampBoxAt(st, ps[n - 1])]
  }

  /** The k-th box is the box of the stamp centred on the k-th position. */
  lemma {:induction false} StampBoxesAt(st: Bitmap, ps: seq<Point>, n: nat)
    requires n <= |ps|
    ensures forall k :: 0 <= k < n ==> StampBoxes(st, ps, n)[k] == StampBoxAt(st, ps[k])
  {
    if n > 0 {
      StampBoxesAt(st, ps, n - 1);
    }
  }

  /** The stroke layer after pasting `st` centred on each of the first n of
      `ps` in turn. */
  function PasteAll(layer: Layer, st: Bitmap, ps: seq<Point>, n: nat): (r: Layer)
    requires st.Valid() && n <= |ps|
    ensures |r| == |layer|
  {
    if n == 0 then layer
    else
      var o := StampOrigin(ps[n - 1].x, ps[n - 1].y, st);
      Paste(PasteAll(layer, st, ps, n - 1), W, st, o.0, o.1)
  }

  /** A pixel that none of the stamp boxes covers keeps its value. */
  lemma {:induction false} PasteAllOutside(layer: Layer, st: Bitmap, ps: seq<Point>, n: nat, i: int)
    requires st.Valid() && n <= |ps| && 0 <= i < |layer|
    requires forall k :: 0 <= k < n ==> !InBox(StampBoxAt(st, ps[k]), i % W, i / W)
    ensures PasteAll(layer, st, ps, n)[i] == layer[i]
  {
    if n > 0 {
      PasteAllOutside(layer, st, ps, n - 1, i);
    }
  }

  /** Stamping draws only inside the box accumulated from the stamps'
      boxes: a pixel outside that box keeps its value, and lay outside the
      box recorded before. */
  lemma PasteAllWithinBox(layer: Layer, st: Bitmap, ps: seq<Point>, box0: Option<Box>, i: int)
    requires st.Valid() && 0 <= i < |layer|
    requires var acc := AccumulateAll(box0, StampBoxes(st, ps, |ps|));
      acc.Some? ==> !InBox(acc.value, i % W, i / W)
    ensures PasteAll(layer, st, ps, |ps|)[i] == layer[i]
    ensures box0.Some? ==> !InBox(box0.value, i % W, i / W)
  {
    var boxes := StampBoxes(st, ps, |ps|);
    var acc := AccumulateAll(box0, boxes);
    AccumulateAllEncloses(box0, boxes);
    StampBoxesAt(st, ps, |ps|);
    forall k | 0 <= k < |ps|
      ensures !InBox(StampBoxAt(st, ps[k]), i % W, i / W)
    {
      if InBox(boxes[k], i % W, i / W) {
        EnclosesInBox(acc.value, boxes[k], i % W, i / W);
      }
    }
    PasteAllOutside(layer, st, ps, |ps|, i);
    if box0.Some? && InBox(box0.value, i % W, i / W) {
      EnclosesInBox(acc.value, box0.value, i % W, i / W);
    }
  }

  /** The stamp positions a drag from sample `prev` to target (x, y) places:
      one at the target for a zero-length segment, otherwise the
      `max(1, floor(segLen / step))` evenly spaced points ending at it. */
  function DragStamps(prev: Sample, x: int, y: int, segLen: real, step: int): (r: seq<Point>)
    requires 0.0 <= segLen && 1 <= step
    ensures |r| == if segLen == 0.0 then 1 else StampCount(segLen, step)
  {
    if segLen == 0.0 then [Point(x as real, y as real)]
    else
      Interpolate(prev.x as real, prev.y as real, (x - prev.x) as real, (y - prev.y) as real,
                  StampCount(segLen, step))
  }

  /** The last stamp of every drag lies exactly on the drag target. */
  lemma DragStampsEndAtTarget(prev: Sample, x: int, y: int, segLen: real, step: int)
    requires 0.0 <= segLen && 1 <= step
    ensures var r := DragStamps(prev, x, y, segLen, step); r[|r| - 1] == Point(x as real, y as real)
  {
    if segLen != 0.0 {
      var n := StampCount(segLen, step);
      InterpolateEndsAtTarget(prev.x as real, prev.y as real, (x - prev.x) as real, (y - prev.y) as real, n);
    }
  }

  /** A drag between two points of the circle stamps only inside it. */
  lemma DragStampsInCircle(prev: Sample, x: int, y: int, segLen: real, step: int)
    requires 0.0 <= segLen && 1 <= step
    requires InsideCircle(W, H, prev.x, prev.y) && InsideCircle(W, H, x, y)
    ensures var r := DragStamps(prev, x, y, segLen, step);
            forall k :: 0 <= k < |r| ==> InsideCircleReal(W, H, r[k].x, r[k].y)
  {
    InsideCircleExact(W, H, prev.x, prev.y);
    InsideCircleExact(W, H, x, y);
    if segLen != 0.0 {
      var px, py := prev.x as real, prev.y as real;
      var dx, dy := (x - prev.x) as real, (y - prev.y) as real;
      assert px + dx == x as real && py + dy == y as real;
      InterpolateStaysInCircle(W, H, px, py, dx, dy, StampCount(segLen, step));
    }
  }

  /** The stamp spacing of the engine's brushes: 5 pixels for the image
      brush (22 × 25%), 6 for the pencil (22 × 0.28), both within the size. */
  lemma EngineSteps()
    ensures StepSize(true, BrushSize, SpacingPct, Smoothing) == 5
    ensures StepSize(false, BrushSize, SpacingPct, Smoothing) == 6
  {
    assert Trunc(22.0 * (25.0 / 100.0)) == 5;
    assert Trunc(22.0 * 0.28) == 6;
  }

  /** The channels start-up reads from the initial brush colour by slicing
      `[1:3]`, `[3:5]`, `[5:7]` and parsing base 16: 34 each. */
  lemma InitialBrushChannels()
    ensures ParseBase16(Slice(InitialBrushColor, 1, 3)) == Some(34)
    ensures ParseBase16(Slice(InitialBrushColor, 3, 5)) == Some(34)
    ensures ParseBase16(Slice(InitialBrushColor, 5, 7)) == Some(34)
  {
    Hex2RoundTrip(34);
    assert Slice(InitialBrushColor, 1, 3) == Hex2(34);
    assert Slice(InitialBrushColor, 3, 5) == Hex2(34);
    assert Slice(InitialBrushColor, 5, 7) == Hex2(34);
  }

  /** The hue, saturation and value start-up derives from the initial brush
      colour: its channels over 255 through `rgb_to_hsv`. A grey, so hue
      and saturation 0. */
  function InitialHsv(): (hsv: (real, real, real))
    ensures hsv == (0.0, 0.0, 34.0 / 255.0)
  {
    InitialBrushChannels();
    var r0 := ParseBase16(Slice(InitialBrushColor, 1, 3)).value as real / 255.0;
    var g0 := ParseBase16(Slice(InitialBrushColor, 3, 5)).value as real / 255.0;
    var b0 := ParseBase16(Slice(InitialBrushColor, 5, 7)).value as real / 255.0;
    RgbToHsv(r0, g0, b0)
  }

  /** Start-up's picker state, derived from the initial brush colour. */
  method StartingHsv() returns (h: Fraction, s: Fraction, v: Fraction)
    ensures h == 0.0 && s == 0.0 && v == 34.0 / 255.0
  {
    var hsv := InitialHsv();
    h, s, v := hsv.0, hsv.1, hsv.2;
  }

  /** Start-up's main image: the white disc on black. */
  method StartingImage() returns (img: Layer)
    ensures img == InitialImage(W, H) && CanvasImage(W, H, img)
  {
    img := InitialImage(W, H);
    InitialImageIsCanvas(W, H);
  }

  /** `Image.new("RGBA", (W, H), (0, 0, 0, 0))` for the stroke layer. */
  method NewStrokeLayer() returns (a: array<Pixel>)
    ensures fresh(a) && a.Length == W * H
    ensures a[..] == TransparentLayer(W * H)
    ensures forall i :: 0 <= i < a.Length ==> a[i] == Transparent
  {
    a := new Pixel[W * H](_ => Transparent);
    assert forall i :: 0 <= i < a.Length ==> a[i] == Transparent;
    assert a[..] == TransparentLayer(W * H);
  }

  class PainterEngine {
    var isDrawing: bool
    var points: seq<CircleSample>
    /** The stroke layer, W×H pixels row by row, pasted into in place. */
    var strokeLayer: array<Pixel>
    var mainImg: Layer
    var undoStack: seq<Layer>
    var lastBbox: Option<Box>

    var brushKind: BrushKind
    var brushColor: HexColour
    var customImage: Option<BrushImage>
    var customCache: SoundCache

    /** Colour picker state: hue, saturation and value of the picker, the
        colour awaiting confirmation, and whether the picker is shown. */
    var hue: Fraction
    var sat: Fraction
    var val: Fraction
    var pendingColour: Option<HexColour>
    var pickerOpen: bool

    /** Whether pixel i of the stroke layer lies in `last_drawn_bbox`. */
    predicate InLastBox(i: int)
      reads this`lastBbox
    {
      lastBbox.Some? && InBox(lastBbox.value, i % W, i / W)
    }

    /** `last_drawn_bbox` bounds what is drawn: every stroke pixel outside
        it is transparent. */
    predicate StrokeWithinBox()
      reads this`lastBbox, this`strokeLayer, strokeLayer
    {
      forall i :: 0 <= i < strokeLayer.Length && !InLastBox(i) ==> strokeLayer[i] == Transparent
    }

    /** The main image and every snapshot are canvas images; the history
        never exceeds its cap. */
    predicate HistoryValid()
      reads this`mainImg, this`undoStack
    {
      CanvasImage(W, H, mainImg)
      && |undoStack| <= UndoLimit
      && (forall s :: s in undoStack ==> CanvasImage(W, H, s))
    }

    /** An active stroke has a sample, and nothing is drawn outside the
        recorded box. */
    predicate StrokeValid()
      reads this`isDrawing, this`points, this`lastBbox, this`strokeLayer, strokeLayer
    {
      strokeLayer.Length == W * H
      && (isDrawing ==> 1 <= |points|)
      && StrokeWithinBox()
    }

    predicate Valid()
      reads this, strokeLayer
    {
      HistoryValid() && StrokeValid()
    }

    /** The start-up state: a white disc on black, an empty history, the
        pencil in colour #222222, whose hue, saturation and value the
        picker starts from. */
    constructor()
      ensures Valid()
      ensures !isDrawing && points == [] && lastBbox == None
      ensures mainImg == InitialImage(W, H) && undoStack == []
      ensures AllTransparent(strokeLayer[..])
      ensures brushKind == Pencil && brushColor == InitialBrushColor
      ensures customImage == None && customCache == map[]
      ensures hue == 0.0 && sat == 0.0 && val == 34.0 / 255.0
      ensures pendingColour == None && !pickerOpen
    {
      var h, s, v := StartingHsv();
      var img := StartingImage();
      var layer := NewStrokeLayer();
      isDrawing := false;
      points := [];
      strokeLayer := layer;
      mainImg := img;
      undoStack := [];
      lastBbox := None;
      brushKind := Pencil;
      brushColor := InitialBrushColor;
      customImage := None;
      customCache := map[];
      hue, sat, val := h, s, v;
      pendingColour := None;
      pickerOpen := false;
    }

    /** `_make_stamp_from_image`: look the stamp base up in the cache by
        (prefix, nw, nh), building and caching it in the brush colour when
        absent, then scale a copy of it by the opacity alpha. Cached
        entries are never modified. */
    method MakeStampFromImage(src: Bitmap, globalAlpha: Byte) returns (st: Bitmap)
      requires GoodBrushImage(src) && CacheSound(customCache) && CanonicalHex(brushColor)
      modifies this`customCache
      ensures customCache == CacheAfter(old(customCache), src, ColourBytes(brushColor))
      ensures var base := StampBase(old(customCache), src, ColourBytes(brushColor));
              st == if globalAlpha < 255 then ScaleOpacity(base, globalAlpha) else base
    {
      var key := StampKey(src);
      var base: Bitmap;
      if key in customCache {
        base := customCache[key];
      } else {
        base := ImageStampBase(src, key.nw, key.nh, ColourBytes(brushColor));
        customCache := customCache[key := base];
      }
      if globalAlpha < 255 {
        st := ScaleOpacity(base, globalAlpha);
      } else {
        st := base;
      }
    }

    /** The dispatch of `_stamp_at` on the brush: the pencil dab, the
        image brush's stamp when an image is loaded, the plain disc
        otherwise. */
    method BuildStamp() returns (st: Bitmap)
      modifies this`customCache
      ensures st == BrushStamp(brushKind, customImage, old(customCache), brushColor)
      ensures customCache == StampCache(brushKind, customImage, old(customCache), brushColor)
    {
      var alpha := OpacityAlpha(Opacity);
      if brushKind == Pencil {
        st := PencilDab(BrushSize, ColourBytes(brushColor), alpha);
      } else if customImage.Some? {
        st := MakeStampFromImage(customImage.value, alpha);
      } else {
        st := FallbackDab(BrushSize, ColourBytes(brushColor), alpha);
      }
    }

    /** `stroke_layer.paste(stamp, (sx, sy), stamp)` followed by the growth
        of `last_drawn_bbox` by the stamp's box. */
    method PasteStamp(st: Bitmap, sx: int, sy: int)
      requires st.Valid() && strokeLayer.Length == W * H
      modifies this`lastBbox, strokeLayer
      ensures old(StrokeWithinBox()) ==> StrokeWithinBox()
      ensures strokeLayer[..] == Paste(old(strokeLayer[..]), W, st, sx, sy)
      ensures lastBbox == Some(Accumulate(old(lastBbox), StampBox(st, sx, sy)))
    {
      ghost var before := strokeLayer[..];
      ghost var within := StrokeWithinBox();
      forall i | 0 <= i < strokeLayer.Length {
        strokeLayer[i] := PastePixel(strokeLayer[i], i, W, st, sx, sy);
      }
      assert strokeLayer[..] == Paste(before, W, st, sx, sy);
      ghost var oldBox := lastBbox;
      var box := StampBox(st, sx, sy);
      lastBbox := Some(Accumulate(lastBbox, box));
      forall i | within && 0 <= i < strokeLayer.Length && !InLastBox(i)
        ensures strokeLayer[i] == Transparent
      {
        if InBox(box, i % W, i / W) {
          EnclosesInBox(lastBbox.value, box, i % W, i / W);
        }
        if oldBox.Some? && InBox(oldBox.value, i % W, i / W) {
          EnclosesInBox(lastBbox.value, oldBox.value, i % W, i / W);
        }
      }
    }

    /** `_stamp_at`: build the brush's stamp, paste it centred on (x, y)
        into the stroke layer through its own alpha, and grow
        `last_drawn_bbox` by the stamp's box. */
    method StampAt(x: real, y: real) returns (st: Bitmap, sx: int, sy: int)
      requires strokeLayer.Length == W * H
      modifies this`lastBbox, this`customCache, strokeLayer
      ensures old(StrokeWithinBox()) ==> StrokeWithinBox()
      ensures st == BrushStamp(brushKind, customImage, old(customCache), brushColor)
      ensures (sx, sy) == StampOrigin(x, y, st)
      ensures strokeLayer[..] == Paste(old(strokeLayer[..]), W, st, sx, sy)
      ensures lastBbox == Some(Accumulate(old(lastBbox), StampBox(st, sx, sy)))
      ensures customCache == StampCache(brushKind, customImage, old(customCache), brushColor)
    {
      st := BuildStamp();
      var o := StampOrigin(x, y, st);
      sx, sy := o.0, o.1;
      PasteStamp(st, sx, sy);
    }

    /** One turn of the loop of `on_drag`: stamp at `ps[i]` when the first
        `i` positions are already stamped with `st0`. */
    method StampNext(ps: seq<Point>, i: nat, ghost st0: Bitmap, ghost cache1: map<CacheKey, Bitmap>,
                     ghost layer0: Layer, ghost box0: Option<Box>, ghost boxes: seq<Box>) returns (b: Box)
      requires i < |ps| && strokeLayer.Length == W * H
      requires BrushStamp(brushKind, customImage, customCache, brushColor) == st0
      requires StampCache(brushKind, customImage, customCache, brushColor) == cache1
      requires StampCache(brushKind, customImage, cache1, brushColor) == cache1
      requires BrushStamp(brushKind, customImage, cache1, brushColor) == st0
      requires lastBbox == AccumulateAll(box0, boxes) && boxes == StampBoxes(st0, ps, i)
      requires strokeLayer[..] == PasteAll(layer0, st0, ps, i)
      modifies this`lastBbox, this`customCache, strokeLayer
      ensures customCache == cache1
      ensures boxes + [b] == StampBoxes(st0, ps, i + 1)
      ensures lastBbox == AccumulateAll(box0, boxes + [b])
      ensures strokeLayer[..] == PasteAll(layer0, st0, ps, i + 1)
    {
      ghost var before := strokeLayer[..];
      var st, sx, sy := StampAt(ps[i].x, ps[i].y);
      assert strokeLayer[..] == Paste(before, W, st0, sx, sy);
      b := StampBox(st, sx, sy);
      AccumulateAllSnoc(box0, boxes, b);
    }

    /** Stamp at each of `positions` in turn with `st0`. */
    method StampEach(positions: seq<Point>, ghost st0: Bitmap, ghost cache0: map<CacheKey, Bitmap>,
                     ghost cache1: map<CacheKey, Bitmap>, ghost layer0: Layer, ghost box0: Option<Box>) returns (boxes: seq<Box>)
      requires strokeLayer.Length == W * H
      requires customCache == cache0 && lastBbox == box0 && strokeLayer[..] == layer0
      requires BrushStamp(brushKind, customImage, cache0, brushColor) == st0
      requires StampCache(brushKind, customImage, cache0, brushColor) == cache1
      requires StampCache(brushKind, customImage, cache1, brushColor) == cache1
      requires BrushStamp(brushKind, customImage, cache1, brushColor) == st0
      modifies this`lastBbox, this`customCache, strokeLayer
      ensures customCache == if |positions| == 0 then cache0 else cache1
      ensures boxes == StampBoxes(st0, positions, |positions|)
      ensures lastBbox == AccumulateAll(box0, boxes)
      ensures strokeLayer[..] == PasteAll(layer0, st0, positions, |positions|)
    {
      boxes := [];
      var i := 0;
      while i < |positions|
        invariant 0 <= i <= |positions|
        invariant customCache == if i == 0 then cache0 else cache1
        invariant boxes == StampBoxes(st0, positions, i)
        invariant lastBbox == AccumulateAll(box0, boxes)
        invariant strokeLayer[..] == PasteAll(layer0, st0, positions, i)
      {
        var b := StampNext(positions, i, st0, cache1, layer0, box0, boxes);
        boxes := boxes + [b];
        i := i + 1;
      }
    }

    /** Stamp at each position in turn, as the loop of `on_drag` does.
        Every stamp is the one the brush gives before the first of them;
        the boxes of the stamps placed are returned. */
    method StampAlong(positions: seq<Point>) returns (boxes: seq<Box>)
      requires StrokeValid()
      modifies this`lastBbox, this`customCache, strokeLayer
      ensures StrokeValid()
      ensures var st := BrushStamp(brushKind, customImage, old(customCache), brushColor);
        boxes == StampBoxes(st, positions, |positions|)
        && strokeLayer[..] == PasteAll(old(strokeLayer[..]), st, positions, |positions|)
      ensures lastBbox == AccumulateAll(old(lastBbox), boxes)
      ensures customCache == if |positions| == 0 then old(customCache)
                             else StampCache(brushKind, customImage, old(customCache), brushColor)
    {
      ghost var layer0, box0 := strokeLayer[..], lastBbox;
      ghost var st0 := BrushStamp(brushKind, customImage, customCache, brushColor);
      assert forall i :: 0 <= i < |layer0| && !InLastBox(i) ==> layer0[i] == Transparent;
      StampCacheStable(brushKind, customImage, customCache, brushColor);
      boxes := StampEach(positions, st0, customCache,
                         StampCache(brushKind, customImage, customCache, brushColor), layer0, box0);
      forall i | 0 <= i < strokeLayer.Length && !InLastBox(i)
        ensures strokeLayer[i] == Transparent
      {
        PasteAllWithinBox(layer0, st0, positions, box0, i);
      }
    }

    /** `on_press`: a press on one of the overlay icons (`onOverlay`, the
        windowing layer's hit-test) is ignored; otherwise a press inside the
        canvas and its circle snapshots the main image onto the capped
        history, starts a stroke of one sample on a fresh stroke layer, and
        stamps once at the press point. Any other press changes nothing. */
    method OnPress(ex: int, ey: int, now: real, onOverlay: bool)
      requires Valid()
      modifies this`undoStack, this`isDrawing, this`points, this`strokeLayer, this`lastBbox, this`customCache
      ensures Valid()
      ensures onOverlay || !(0 <= ex < W && 0 <= ey < H && InsideCircle(W, H, ex, ey)) ==>
        unchanged(this) && unchanged(old(strokeLayer))
      ensures !onOverlay && 0 <= ex < W && 0 <= ey < H && InsideCircle(W, H, ex, ey) ==>
        undoStack == PushBounded(old(undoStack), mainImg, UndoLimit)
        && isDrawing && points == [Sample(ex, ey, now)]
        && fresh(strokeLayer)
        && customCache == StampCache(brushKind, customImage, old(customCache), brushColor)
        && var st := BrushStamp(brushKind, customImage, old(customCache), brushColor);
           var o := StampOrigin(ex as real, ey as real, st);
           lastBbox == Some(StampBox(st, o.0, o.1))
           && strokeLayer[..] == Paste(TransparentLayer(W * H), W, st, o.0, o.1)
    {
      if onOverlay {
        return;
      }
      if !(0 <= ex < W && 0 <= ey < H) {
        return;
      }
      if !InsideCircle(W, H, ex, ey) {
        return;
      }
      PushSnapshot();
      var st, sx, sy := StartStroke(ex, ey, now);
    }

    /** The snapshot an accepted press takes: the main image goes onto the
        history, the oldest entry making room when it is full. */
    method PushSnapshot()
      requires HistoryValid()
      modifies this`undoStack
      ensures HistoryValid()
      ensures undoStack == PushBounded(old(undoStack), mainImg, UndoLimit)
    {
      PushBoundedMembers(undoStack, mainImg, UndoLimit);
      undoStack := PushBounded(undoStack, mainImg, UndoLimit);
    }

    /** The stroke an accepted press starts: active, one sample, a fresh
        transparent stroke layer and no box yet. */
    method BeginStroke(ex: int, ey: int, now: real)
      requires InsideCircle(W, H, ex, ey)
      modifies this`isDrawing, this`points, this`strokeLayer, this`lastBbox
      ensures StrokeValid()
      ensures isDrawing && points == [Sample(ex, ey, now)] && lastBbox == None
      ensures fresh(strokeLayer) && strokeLayer[..] == TransparentLayer(W * H)
    {
      var layer := NewStrokeLayer();
      isDrawing := true;
      points := [Sample(ex, ey, now)];
      strokeLayer := layer;
      lastBbox := None;
    }

    /** The new stroke with its first stamp at the press point. */
    method StartStroke(ex: int, ey: int, now: real) returns (st: Bitmap, sx: int, sy: int)
      requires InsideCircle(W, H, ex, ey)
      modifies this`isDrawing, this`points, this`strokeLayer, this`lastBbox, this`customCache
      ensures StrokeValid()
      ensures isDrawing && points == [Sample(ex, ey, now)] && fresh(strokeLayer)
      ensures st == BrushStamp(brushKind, customImage, old(customCache), brushColor)
      ensures (sx, sy) == StampOrigin(ex as real, ey as real, st)
      ensures lastBbox == Some(StampBox(st, sx, sy))
      ensures strokeLayer[..] == Paste(TransparentLayer(W * H), W, st, sx, sy)
      ensures customCache == StampCache(brushKind, customImage, old(customCache), brushColor)
    {
      BeginStroke(ex, ey, now);
      st, sx, sy := StampAt(ex as real, ey as real);
    }

    /** The segment length the windowing layer passes with a drag: the exact
        distance from the last sample to the clamped target. */
    predicate SegmentLength(ex: int, ey: int, segLen: real)
      reads this
    {
      0.0 <= segLen
      && (|points| > 0 ==>
            var x, y := Clamp(ex, 0, W - 1), Clamp(ey, 0, H - 1);
            var p := points[|points| - 1];
            segLen * segLen == ((x - p.x) * (x - p.x) + (y - p.y) * (y - p.y)) as real)
    }

    /** `on_drag`: with a stroke active and the clamped target inside the
        circle, record the sample and stamp along the segment from the last
        sample; otherwise nothing changes (the stroke stays active). */
    method OnDrag(ex: int, ey: int, now: real, segLen: real) returns (placed: seq<Point>, boxes: seq<Box>)
      requires Valid() && SegmentLength(ex, ey, segLen)
      modifies this`points, this`lastBbox, this`customCache, strokeLayer
      ensures Valid()
      ensures !old(isDrawing) || !InsideCircle(W, H, Clamp(ex, 0, W - 1), Clamp(ey, 0, H - 1)) ==>
        placed == [] && boxes == [] && unchanged(this) && unchanged(strokeLayer)
      ensures var x, y := Clamp(ex, 0, W - 1), Clamp(ey, 0, H - 1);
        old(isDrawing) && InsideCircle(W, H, x, y) ==>
          points == old(points) + [Sample(x, y, now)]
          && placed == DragStamps(old(points)[|old(points)| - 1], x, y, segLen,
                                  StepSize(brushKind == ImageBrush, BrushSize, SpacingPct, Smoothing))
      ensures var st := BrushStamp(brushKind, customImage, old(customCache), brushColor);
        boxes == StampBoxes(st, placed, |placed|)
        && strokeLayer[..] == PasteAll(old(strokeLayer[..]), st, placed, |placed|)
      ensures lastBbox == AccumulateAll(old(lastBbox), boxes)
      ensures customCache == if |placed| == 0 then old(customCache)
                             else StampCache(brushKind, customImage, old(customCache), brushColor)
    {
      placed, boxes := [], [];
      if !isDrawing {
        return;
      }
      var x, y := Clamp(ex, 0, W - 1), Clamp(ey, 0, H - 1);
      if !InsideCircle(W, H, x, y) {
        return;
      }
      var prev := points[|points| - 1];
      points := points + [Sample(x, y, now)];
      var step := StepSize(brushKind == ImageBrush, BrushSize, SpacingPct, Smoothing);
      placed := DragStamps(prev, x, y, segLen, step);
      boxes := StampAlong(placed);
    }

    /** `on_release`: end the stroke, merge the stroke layer, clipped to
        the circle, into the main image, and start a fresh stroke layer.
        Pixels outside the circle, and pixels outside `last_drawn_bbox`,
        keep their value. */
    method OnRelease()
      requires Valid()
      modifies this`isDrawing, this`mainImg, this`strokeLayer
      ensures Valid()
      ensures !old(isDrawing) ==> unchanged(this)
      ensures old(isDrawing) ==>
        !isDrawing && mainImg == Merge(W, H, old(mainImg), old(strokeLayer[..]))
        && fresh(strokeLayer) && AllTransparent(strokeLayer[..])
      ensures forall i :: 0 <= i < W * H && !InCircleAt(W, H, i) ==> mainImg[i] == old(mainImg)[i]
      ensures forall i :: 0 <= i < W * H && !old(InLastBox(i)) ==> mainImg[i] == old(mainImg)[i]
    {
      if !isDrawing {
        return;
      }
      isDrawing := false;
      var stroke := strokeLayer[..];
      var merged := Merge(W, H, mainImg, stroke);
      MergeKeepsCanvas(W, H, mainImg, stroke);
      forall i | 0 <= i < W * H && !InCircleAt(W, H, i)
        ensures merged[i] == mainImg[i]
      {
        MergeOutsideUnchanged(W, H, mainImg, stroke, i);
      }
      forall i | 0 <= i < W * H && !InLastBox(i)
        ensures merged[i] == mainImg[i]
      {
        assert stroke[i] == Transparent;
        MergeTransparentUnchanged(W, H, mainImg, stroke, i);
      }
      mainImg := merged;
      strokeLayer := NewStrokeLayer();
    }

    /** `undo`: reinstate the most recent snapshot and discard the stroke
        layer; with an empty history nothing changes. */
    method Undo()
      requires Valid()
      modifies this`mainImg, this`undoStack, this`strokeLayer
      ensures Valid()
      ensures old(undoStack) == [] ==> unchanged(this)
      ensures old(undoStack) != [] ==>
        mainImg == old(undoStack)[|old(undoStack)| - 1]
        && undoStack == old(undoStack)[..|old(undoStack)| - 1]
        && fresh(strokeLayer) && AllTransparent(strokeLayer[..])
    {
      if undoStack == [] {
        return;
      }
      mainImg := undoStack[|undoStack| - 1];
      undoStack := undoStack[..|undoStack| - 1];
      strokeLayer := NewStrokeLayer();
    }

    /** `clear`: back to the start-up image with an empty history and a
        fresh stroke layer. The new state does not depend on the old one,
        so clearing twice is clearing once. */
    method Clear()
      requires Valid()
      modifies this`mainImg, this`undoStack, this`strokeLayer
      ensures Valid()
      ensures mainImg == InitialImage(W, H) && undoStack == []
      ensures fresh(strokeLayer) && AllTransparent(strokeLayer[..])
    {
      InitialImageIsCanvas(W, H);
      mainImg := InitialImage(W, H);
      strokeLayer := NewStrokeLayer();
      undoStack := [];
    }

    /** `load_custom_brush` once the file dialog and decoding are done:
        a cancelled or failed load changes nothing; a loaded image becomes
        the brush, the stamp cache is emptied and the image brush selected. */
    method LoadCustomBrush(decoded: Option<BrushImage>)
      requires Valid()
      modifies this`customImage, this`customCache, this`brushKind
      ensures Valid()
      ensures decoded.None? ==> unchanged(this)
      ensures decoded.Some? ==>
        customImage == decoded && customCache == map[] && brushKind == ImageBrush
    {
      if decoded.None? {
        return;
      }
      customImage := decoded;
      customCache := map[];
      brushKind := ImageBrush;
    }

    /** `open_color_picker`: when not already open, open the picker with
        the brush colour pending. */
    method OpenColorPicker()
      requires Valid()
      modifies this`pickerOpen, this`pendingColour
      ensures Valid()
      ensures old(pickerOpen) ==> unchanged(this)
      ensures !old(pickerOpen) ==> pickerOpen && pendingColour == Some(brushColor)
    {
      if pickerOpen {
        return;
      }
      pickerOpen := true;
      pendingColour := Some(brushColor);
    }

    /** `_close_color_picker` (also Escape): close without applying the
        pending colour. */
    method CloseColorPicker()
      requires Valid()
      modifies this`pickerOpen
      ensures Valid()
      ensures !pickerOpen
    {
      pickerOpen := false;
    }

    /** `_apply_color_and_close`: commit the pending colour (the brush
        colour itself when the picker was never opened) and close. */
    method ApplyColorAndClose()
      requires Valid()
      modifies this`brushColor, this`pickerOpen
      ensures Valid()
      ensures brushColor == old(pendingColour).GetOr(old(brushColor))
      ensures !pickerOpen
    {
      if pendingColour.Some? {
        brushColor := pendingColour.value;
      }
      pickerOpen := false;
    }

    /** `_wheel_click` for a click at distance r from the wheel's centre at
        angle ang degrees: on the ring (innerR <= r <= outerR) it sets the
        hue to ang/360 and makes the (hue, s, v) colour pending; elsewhere
        it does nothing. */
    method WheelClick(r: real, outerR: real, innerR: real, ang: real)
      requires Valid()
      requires 0.0 <= ang < 360.0
      modifies this`hue, this`pendingColour
      ensures Valid()
      ensures r < innerR || r > outerR ==> hue == old(hue) && pendingColour == old(pendingColour)
      ensures innerR <= r <= outerR ==>
        hue == ang / 360.0 && pendingColour == Some(HsvHex(hue, sat, val))
    {
      if r < innerR || r > outerR {
        return;
      }
      DivLe(ang, 360.0, 360.0);
      hue := ang / 360.0;
      pendingColour := Some(PickerColour(hue, sat, val));
    }

    /** `_sv_click` on a size×size saturation/value square: the clamped
        column sets the saturation, the clamped row the value (top row
        brightest), and the (h, s, v) colour becomes pending. */
    method SvClick(ex: int, ey: int, size: int)
      requires Valid()
      requires 32 <= size
      modifies this`sat, this`val, this`pendingColour
      ensures Valid()
      ensures var x, y := Clamp(ex, 0, size - 1), Clamp(ey, 0, size - 1);
        sat == x as real / (size - 1) as real && val == 1.0 - y as real / (size - 1) as real
      ensures pendingColour == Some(HsvHex(hue, sat, val))
      ensures ex <= 0 ==> sat == 0.0
      ensures ey <= 0 ==> val == 1.0
    {
      var s, v := SvAt(ex, ey, size);
      var c := PickerColour(hue, s, v);
      sat, val, pendingColour := s, v, Some(c);
    }
  }
}
