# Circular-canvas painter: the painting engine

This project models the painting engine of `PainterApp`, a Tkinter and PIL
painter whose drawable area is the circle inscribed in a 720×720 canvas. The
engine is a single-threaded state machine over a few pieces of state:

- the persistent main image;
- a transparent stroke layer that brush stamps are pasted into;
- an undo history capped at 20 snapshots;
- the image-brush stamp cache;
- the colour picker's hue, saturation, value and pending colour;
- the committed brush colour.

Its operations are modelled as follows:

- A press starts a stroke and snapshots the main image.
- A drag stamps evenly spaced dabs along the segment from the last sample.
- A release clips the stroke to the circle and composites it over the main image.
- Undo and clear restore an earlier image or the start-up image.
- The picker stages a colour and commits it only on confirm.

The model has five modules:

- `Geometry` (`geometry.dfy`):
  - clamping;
  - the circle test, made exact in integers;
  - the stamp spacing and stamp count of a drag, and interpolated positions;
  - bounding boxes.
- `Colour` (`colour.dfy`):
  - `color_rgba` with Python's `lstrip`, slicing and `int(_, 16)`;
  - `#rrggbb` formatting;
  - `colorsys` HSV conversions in exact real arithmetic.
- `Raster` (`raster.dfy`):
  - pixels and row-major layers;
  - pasting through a stamp's alpha;
  - circle clipping and source-over compositing;
  - the three kinds of dab, and image-brush sizing.
- `History` (`history.dfy`): the capped snapshot stack.
- `Painter` (`painter.dfy`): class `PainterEngine`. Its fields are the
  engine's instance fields, and its methods are the event handlers. It keeps
  these invariants in `Valid()`:
  - every snapshot and the main image are opaque and black outside the circle;
  - the history is at most 20 entries;
  - an active stroke has a sample;
  - no stroke pixel lies outside `last_drawn_bbox`.

  Two more are kept by the fields' types: the brush and pending colours
  are canonical `#rrggbb` strings (`HexColour`), and cached stamps have
  their key's size (`SoundCache`). Every handler names in its `modifies`
  clause exactly the fields it may change, so every other field is
  unchanged.

`Wrappers` (`wrappers.dfy`) holds the `Option` type. It models nothing of
its own.

The stroke layer is an `array` pasted into in place, as `paste` mutates it.
The main image and the snapshots are sequence values, because the source only
ever replaces `main_img` with a new image.

Behaviours of the code that the model keeps, some of them easy to miss:

- `on_drag` computes every interpolated position from the sample before the
  drag. The `prev` it advances is never read by `_stamp_at`.
- The fallback brush's `putalpha(mask)` replaces the opacity alpha, so it
  ignores opacity.
- The image-brush cache stores the stamp already coloured, keyed only by
  (prefix, width, height). A cached size keeps its old colour after a colour
  change.
- `on_press` does not check `is_drawing`.
- `on_release` does not clear `points` or `last_drawn_bbox`.
- `undo` and `clear` do not end an active stroke.
- Picker colours are truncated (`int(c * 255)`), not rounded.
- Opacity 100 gives alpha `int(100 * 2.55)`. That is 254 in binary64
  arithmetic, so even a full-opacity stamp is not fully opaque.

## Model

| member | source | states |
|---|---|---|
| Geometry.Clamp | test_fullcircle.py:8 | The result lies in [lo, hi]. It is v itself when v is in range, lo below the range and hi above it. |
| Geometry.Trunc | test_fullcircle.py:741 | `int()` of a float truncates toward zero: the result is within 1 of the argument, on the zero side. |
| Geometry.InsideCircle | test_fullcircle.py:336-338 | No contract: the definition is `_inside_circle` on integer pixels with the fractions cleared, (2x-W)²+(2y-H)² ≤ W². Geometry.InsideCircleExact proves it is the source's test. |
| Geometry.InsideCircleReal | test_fullcircle.py:336-338 | No contract: the definition is `_inside_circle` as written, on real coordinates: (x-W/2)²+(y-H/2)² ≤ (W/2)². It is the reference that InsideCircleExact, DiscConvex, InterpolateStaysInCircle and DragStampsInCircle are stated against. |
| Geometry.InsideCircleExact | test_fullcircle.py:336-338 | On integer pixels, the integer test (2x-W)²+(2y-H)² ≤ W² holds exactly when the source's real test (x-W/2)²+(y-H/2)² ≤ (W/2)² holds. |
| Geometry.InsideCircleWithinSquare | test_fullcircle.py:336-338 | Every point of the circle of a square canvas lies within the canvas square. |
| Geometry.DiscConvex | test_fullcircle.py:336-338 | The circle region is convex: every point on the segment between two points inside it is inside it. |
| Geometry.StepSize | test_fullcircle.py:684-687 | The stamp spacing is at least 1 pixel. It is at most the brush size when the spacing percentage is at most 100 and smoothing is at most 1. |
| Geometry.StampCount | test_fullcircle.py:696 | `max(1, int(seg_len // step))` is at least 1. It is exactly 1 on a segment shorter than a step. Otherwise n·step ≤ segLen < (n+1)·step. |
| Geometry.StampSpacingWithinStep | test_fullcircle.py:696-698 | On a segment at least one step long, the distance between consecutive stamps is at least one step and less than two. |
| Geometry.Interpolate | test_fullcircle.py:697-698 | A segment of n stamps yields exactly n positions. |
| Geometry.InterpolateEndsAtTarget | test_fullcircle.py:697-698 | The last interpolated position (i = n) is exactly the segment's end. |
| Geometry.InterpolateEvenlySpaced | test_fullcircle.py:697-698 | Each position is (dx/n, dy/n) past the one before it. The first is that far past the start. |
| Geometry.InterpolateStaysInCircle | test_fullcircle.py:697-698 | When both ends of the segment are in the circle, every interpolated position is in the circle. |
| Geometry.EnclosesInBox | test_fullcircle.py:764-770 | A pixel of a box lies in every box that encloses it. |
| Geometry.Union | test_fullcircle.py:767-770 | The min/max union encloses both boxes and is enclosed by every box enclosing both, so it is the least such box. |
| Geometry.Accumulate | test_fullcircle.py:765-770 | The new `last_drawn_bbox` encloses the new stamp's box and the old bbox, so it never shrinks. It is the stamp's box when there was none. |
| Geometry.AccumulateAll | test_fullcircle.py:697-700 | `last_drawn_bbox` after a run of stamps: unchanged after none, present after any, and enclosing the bbox recorded before. |
| Geometry.AccumulateAllEncloses | test_fullcircle.py:765-770 | The bbox after a run of stamps encloses every stamp's box. |
| Colour.LStripHash | test_fullcircle.py:26 | `lstrip("#")` returns a suffix of the input. Everything removed is '#', and the result does not start with '#'. |
| Colour.Slice | test_fullcircle.py:27 | Python slicing cuts the bounds back to the length. Within bounds it is the exact subsequence. |
| Colour.ParseBase16 | test_fullcircle.py:27 | `int(t, 16)` on a field of at most two characters fails on an empty field. A successful parse lies in [-15, 255]. Only ASCII blanks and digits are recognised (see Left out). |
| Colour.ColorRgba | test_fullcircle.py:24-27 | A successful parse carries the given alpha, and its channels lie in [-15, 255]. A string with fewer than five characters after the stripped '#'s fails, where the source raises ValueError. |
| Colour.Hex2 | test_fullcircle.py:521 | `{:02x}` of a byte is two lowercase hex digits: those of its high and its low nibble, in that order. |
| Colour.FormatHex | test_fullcircle.py:521 | The picker's `#%02x%02x%02x` string is '#' followed by the two-digit forms of the three bytes, in order. |
| Colour.Hex2RoundTrip | test_fullcircle.py:27 | Parsing the two-digit hex form of a byte in base 16 gives the byte back. |
| Colour.ColorRgbaFormatHex | test_fullcircle.py:24-27 | Round trip: `color_rgba` of a formatted colour returns exactly the three bytes it was formatted from. |
| Colour.FormatHexCanonical | test_fullcircle.py:521 | Every formatted colour is canonical: '#' and six hex digits. |
| Colour.CanonicalHexParses | test_fullcircle.py:24-27 | `color_rgba` never fails on a canonical colour string. It returns the bytes written by its three digit pairs. |
| Colour.InitialBrushColorWellFormed | test_fullcircle.py:54 | The start-up colour #222222 is canonical and parses to (34, 34, 34). |
| Colour.HsvToRgb | test_fullcircle.py:520 | `hsv_to_rgb` maps [0,1]³ into [0,1]³. Saturation 0 gives the grey (v, v, v). |
| Colour.RgbToHsv | test_fullcircle.py:58 | `rgb_to_hsv` maps [0,1]³ into [0,1]³, and the value is the largest component. A grey gives hue and saturation 0; any other colour gives a positive saturation. |
| Colour.Saturation | test_fullcircle.py:58 | The saturation of a non-grey colour lies in (0, 1]. |
| Colour.Hue | test_fullcircle.py:58 | The hue, reduced modulo 1, lies in [0, 1). |
| Colour.ToByte | test_fullcircle.py:521 | `int(c * 255)` of a component in [0,1] is a byte. It is 255 for 1 and 0 for 0. |
| Colour.HsvHex | test_fullcircle.py:520-521 | The picker's colour string has seven characters and starts with '#'. |
| Colour.HsvHexParses | test_fullcircle.py:520-521 | Every colour the picker produces parses back, through `color_rgba`, to the truncated bytes of its `hsv_to_rgb` components. |
| Colour.HsvHexGrey | test_fullcircle.py:574-575 | Saturation 0 yields a grey whatever the hue. |
| Colour.HsvHexBlack | test_fullcircle.py:574-575 | Value 0 yields #000000 whatever the hue and saturation. |
| Raster.InitialImage | test_fullcircle.py:44-45 | The start-up image has W·H pixels. |
| Raster.InitialImageIsCanvas | test_fullcircle.py:44-45 | The start-up image is opaque and black outside the circle. It is white inside. |
| Raster.TransparentLayer | test_fullcircle.py:46 | A new stroke layer has n pixels, all transparent. |
| Raster.PasteBlend | test_fullcircle.py:763 | Pasting a pixel through its own alpha leaves the layer pixel unchanged at alpha 0 and replaces it at alpha 255. |
| Raster.Over | test_fullcircle.py:715 | Source-over leaves the destination unchanged under a source of alpha 0, and replaces it under alpha 255. An opaque destination stays opaque. |
| Raster.Multiply | test_fullcircle.py:711 | `ImageChops.multiply` by mask 255 keeps the value and by mask 0 gives 0. It never increases the value. |
| Raster.MaskAt | test_fullcircle.py:47 | The circle mask is 255 on the pixels of the circle and 0 on every other pixel (see Left out for the rasterisation). |
| Raster.ClipToCircle | test_fullcircle.py:710-712 | Clipping keeps the layer's size. |
| Raster.AnyVisible | test_fullcircle.py:709 | `getbbox()` is None exactly when every pixel of the layer has alpha 0. |
| Raster.Merge | test_fullcircle.py:709-715 | The released image has the main image's size. |
| Raster.MergeOutsideUnchanged | test_fullcircle.py:709-715 | Clip correctness: after a release, every pixel outside the circle is what it was, whatever the stroke layer holds there. |
| Raster.MergeInsideComposites | test_fullcircle.py:709-715 | Inside the circle, the released pixel is the stroke pixel composited over the main pixel; the clip does not alter it. |
| Raster.MergeTransparentUnchanged | test_fullcircle.py:715 | Where the stroke layer is transparent, the main image is unchanged. |
| Raster.MergeNothingVisible | test_fullcircle.py:709-715 | A release with nothing visible on the stroke layer leaves the main image exactly as it was. |
| Raster.MergeKeepsCanvas | test_fullcircle.py:709-715 | A release keeps the main image full-size, opaque, and black outside the circle. |
| Raster.PastePixel | test_fullcircle.py:763 | A layer pixel the stamp does not cover is left as it was. |
| Raster.Paste | test_fullcircle.py:763 | `paste` keeps the layer's size and changes no pixel outside the stamp's box. |
| Raster.PasteClearStampPixel | test_fullcircle.py:763 | A stamp pixel of alpha 0 leaves the layer pixel under it unchanged. |
| Raster.StampBox | test_fullcircle.py:764 | No contract: the definition is the bbox (sx, sy, sx+width, sy+height) of a stamp pasted at (sx, sy). |
| Raster.OpacityAlpha | test_fullcircle.py:741 | `int(clamp(opacity,1,100) * 2.55)` lies in [2, 254]. |
| Raster.FullOpacityIsNotOpaque | test_fullcircle.py:741 | Opacity 100 and any opacity above it give alpha 254, not 255. |
| Raster.OpacityAlphaMonotonic | test_fullcircle.py:741 | More opacity never gives less alpha. |
| Raster.ScaleAlpha | test_fullcircle.py:750 | Brightness scaling never raises an alpha value and keeps 0 at 0. |
| Raster.PencilDab | test_fullcircle.py:745-751 | The pencil stamp is a valid size×size raster. |
| Raster.FallbackDab | test_fullcircle.py:758-760 | The fallback stamp is a valid size×size raster. |
| Raster.FallbackDabIgnoresOpacity | test_fullcircle.py:760 | The fallback stamp is the same for every opacity alpha. |
| Raster.DabsClearOutsideDisc | test_fullcircle.py:746-760 | The hard-disc pencil and fallback dabs of this model are transparent outside their inscribed disc. The source blurs the mask first (see Left out). |
| Raster.ImageStampSize | test_fullcircle.py:775-777 | The longer side of the image stamp becomes the brush size, and the shorter side is scaled in proportion. |
| Raster.ScaledSide | test_fullcircle.py:776-777 | The shorter side lies in [1, size]. When short·size < long, `max(1, ·)` clamps it to exactly 1. Otherwise it is the floor of short·size/long. |
| Raster.ShorterSide | test_fullcircle.py:776-777 | The proportional shorter side is at most the size. It is at least 1 when short·size ≥ long. |
| Raster.ImageStampBase | test_fullcircle.py:782-786 | A freshly built image stamp is a valid nw×nh raster. |
| Raster.ScaleOpacity | test_fullcircle.py:788-791 | Opacity scaling returns a copy of the same size. Only alpha changes, and it never rises. |
| History.PushBounded | test_fullcircle.py:663-664 | The pushed snapshot is the new top. The length grows by one, or stays at the cap when full. What lies below the top is the newest part of the old stack, so exactly the oldest entry is evicted when full. |
| History.PushBoundedMembers | test_fullcircle.py:663-664 | A push adds no entry other than the pushed one. |
| History.PushAllLength | test_fullcircle.py:663-664 | After any number of pushes, the stack length is the number of entries, capped at the limit. |
| History.PushAllKeepsNewest | test_fullcircle.py:663-664 | After any sequence of pushes, the stack is exactly the newest entries of everything pushed, as many as the cap allows. |
| History.PushThenPop | test_fullcircle.py:663-664 | Undo right after a push returns the pushed snapshot. Below it is the old stack, less its oldest entry if it was full. |
| Painter.ColourBytesParse | test_fullcircle.py:751 | Stamps are painted in exactly the channels `color_rgba` parses from the brush colour, at alpha 255. |
| Painter.PickerColourIsCanonical | test_fullcircle.py:520-521 | Every colour the picker can produce is canonical, so it always parses. |
| Painter.SvAt | test_fullcircle.py:568-572 | Saturation is the clamped column over size-1, and value is 1 minus the clamped row over size-1. Both lie in [0, 1]. A click at or left of column 0 gives saturation 0; a click at or above row 0 gives value 1. |
| Painter.StampKey | test_fullcircle.py:775-778 | The cache key is ("__custom__", nw, nh): the longer side is the brush size and the shorter lies in [1, size]. |
| Painter.StampBase | test_fullcircle.py:779-787 | The stamp base has the size its key names. |
| Painter.CacheAfter | test_fullcircle.py:779-787 | After a stamp, the image's key maps to the stamp base used. No existing entry is replaced or modified, and no other key is added. |
| Painter.BrushStamp | test_fullcircle.py:740-760 | Every stamp is valid and at most the brush size on each side. Pencil and fallback stamps are exactly size×size. |
| Painter.CachedStampIgnoresColour | test_fullcircle.py:779-780 | Once a size is cached, changing the brush colour does not change the image brush's stamp. |
| Painter.StampOrigin | test_fullcircle.py:762 | At integer positions, the stamp's corner is the position minus half the stamp's size, by floor division. |
| Painter.StampCache | test_fullcircle.py:740-787 | The cache after one stamp: `CacheAfter` of the old cache for the image brush with an image loaded, the old cache otherwise. It stays sound, and no old entry changes. |
| Painter.StampCacheStable | test_fullcircle.py:779-787 | After one stamp, the next stamp of the same brush is the same stamp, and it leaves the cache as it is. |
| Painter.StampBoxes | test_fullcircle.py:764 | One box per stamped position. |
| Painter.StampBoxesAt | test_fullcircle.py:764 | The k-th box is the box of the stamp centred on the k-th position. |
| Painter.PasteAll | test_fullcircle.py:697-700 | The layer after a run of pastes keeps its size. |
| Painter.PasteAllOutside | test_fullcircle.py:763 | A pixel that no stamp box covers keeps its value through a run of pastes. |
| Painter.PasteAllWithinBox | test_fullcircle.py:763-770 | A run of stamps draws only inside the bbox accumulated from their boxes: a pixel outside it keeps its value, and lay outside the bbox recorded before. |
| Painter.DragStamps | test_fullcircle.py:689-700 | A zero-length segment gives exactly one stamp. Otherwise there are `max(1, floor(len/step))` stamps. |
| Painter.DragStampsEndAtTarget | test_fullcircle.py:693-700 | The last stamp of every drag lies exactly on the drag target. |
| Painter.DragStampsInCircle | test_fullcircle.py:689-700 | A drag between two points of the circle stamps only at positions inside the circle. |
| Painter.EngineSteps | test_fullcircle.py:66-72 | With the start-up brush settings, stamps are 5 pixels apart for the image brush and 6 for the others. |
| Painter.InitialBrushChannels | test_fullcircle.py:54-57 | Start-up reads 34 from each of the three channel slices of #222222. |
| Painter.InitialHsv | test_fullcircle.py:54-58 | The start-up hue, saturation and value are (0, 0, 34/255). |
| Painter.StartingHsv | test_fullcircle.py:55-58 | Start-up's picker state is hue 0, saturation 0, value 34/255. |
| Painter.StartingImage | test_fullcircle.py:44-45 | Start-up's main image is the white disc on black, and it is a canvas image. |
| Painter.NewStrokeLayer | test_fullcircle.py:46 | A new stroke layer is a fresh W·H array, all transparent. |
| Painter.PainterEngine.constructor | test_fullcircle.py:41-78 | Start-up satisfies the invariant. Not drawing, no samples, no bbox, the initial image, an empty history, a transparent stroke layer, the pencil in #222222, no custom image, an empty cache, the picker closed and nothing pending. |
| Painter.PainterEngine.MakeStampFromImage | test_fullcircle.py:773-792 | The cache becomes `CacheAfter` of the old one. The stamp is the cached or fresh base, scaled by opacity on a copy when alpha is below 255. |
| Painter.PainterEngine.BuildStamp | test_fullcircle.py:740-760 | The stamp is the one the brush kind, image and old cache determine. The new cache is exactly `StampCache` of the old one. |
| Painter.PainterEngine.PasteStamp | test_fullcircle.py:763-770 | The stroke layer becomes the stamp pasted onto it, and the bbox becomes the old bbox grown by the stamp's box. If nothing lay outside the old bbox, nothing lies outside the new one. |
| Painter.PainterEngine.StampAt | test_fullcircle.py:737-770 | Stamps the brush's stamp at the origin for (x, y). It states the paste, the bbox growth, and the new cache exactly as `StampCache`. It keeps the bbox invariant. |
| Painter.PainterEngine.StampNext | test_fullcircle.py:697-700 | One turn of the drag loop: the layer, bbox and box list after it are those of one more stamp with the stamp of the drag's first turn. |
| Painter.PainterEngine.StampEach | test_fullcircle.py:697-700 | The loop of `on_drag`: the stroke layer is `PasteAll` of the stamps and the bbox `AccumulateAll` of their boxes, in order. The cache is that after the first stamp. |
| Painter.PainterEngine.StampAlong | test_fullcircle.py:697-700 | Every stamp of a drag is the brush's stamp for the cache before the drag. The returned boxes are their boxes, position by position. The stroke layer is exactly those stamps pasted in order. The bbox is the old one grown by each box, and the cache is as after one stamp. Nothing lies outside the new bbox. |
| Painter.PainterEngine.OnPress | test_fullcircle.py:652-673 | A press on an overlay icon, or outside the canvas or its circle, changes nothing. An accepted press pushes the main image with capped eviction and starts drawing with exactly one sample. The stroke layer becomes the first stamp pasted on a fresh transparent layer, and the bbox is that stamp's box. The new cache is `StampCache` of the old one. No other field changes. |
| Painter.PainterEngine.PushSnapshot | test_fullcircle.py:663-664 | The history becomes the capped push of the main image, and stays valid. |
| Painter.PainterEngine.BeginStroke | test_fullcircle.py:666-669 | Drawing starts with exactly the press sample, a fresh transparent stroke layer and no bbox. |
| Painter.PainterEngine.StartStroke | test_fullcircle.py:666-672 | The new stroke's layer is the first stamp pasted on a transparent layer, its bbox is that stamp's box, and its cache is `StampCache` of the old one. |
| Painter.PainterEngine.OnDrag | test_fullcircle.py:675-702 | Without an active stroke, or outside the circle after clamping, nothing changes. Otherwise it appends exactly the clamped sample and places the stamps at `DragStamps` of the last sample. The stroke layer is exactly those stamps pasted in order, and the bbox is the old one grown by their boxes. Only the samples, stroke layer, bbox and cache change. |
| Painter.PainterEngine.OnRelease | test_fullcircle.py:704-717 | A release while not drawing is a no-op. Otherwise it stops drawing, sets the main image to the merge of the clipped stroke, and resets the stroke layer to transparent. Main pixels outside the circle, or outside `last_drawn_bbox`, are unchanged. No other field changes. |
| Painter.PainterEngine.Undo | test_fullcircle.py:797-802 | Undo on an empty history changes nothing. Otherwise it installs the top snapshot, drops it from the history and resets the stroke layer to transparent. No other field changes. |
| Painter.PainterEngine.Clear | test_fullcircle.py:804-810 | Clear sets the start-up image, an empty history and a transparent stroke layer. No other field changes. None of the new values depend on the old state, so clearing twice equals clearing once. |
| Painter.PainterEngine.LoadCustomBrush | test_fullcircle.py:341-353 | A cancelled or failed load changes nothing. A loaded image becomes the brush, empties the cache and selects the image brush. No other field changes. |
| Painter.PainterEngine.OpenColorPicker | test_fullcircle.py:356-436 | Opening an already open picker does nothing. Otherwise the picker opens with the brush colour pending. No other field changes. |
| Painter.PainterEngine.CloseColorPicker | test_fullcircle.py:476-484 | Escape or close hides the picker, and the brush colour is not applied. |
| Painter.PainterEngine.ApplyColorAndClose | test_fullcircle.py:493-505 | Confirm commits the pending colour, or keeps the brush colour if none is pending, and closes the picker. |
| Painter.PainterEngine.WheelClick | test_fullcircle.py:507-523 | A click off the ring changes nothing. A click on the ring sets only the hue, to ang/360, and makes the (h, s, v) colour pending. |
| Painter.PainterEngine.SvClick | test_fullcircle.py:567-577 | Sets only saturation and value, from the clamped click, and makes the (h, s, v) colour pending. The brush colour is unchanged. |

## Left out

- Tkinter: window layout, reflow, the drawing of the overlay icons, cursors,
  hotkey bindings, the colour wheel and SV-square pixel loops, and the canvas
  bookkeeping. These are display only. The one engine decision that depends
  on them, whether a press hit an overlay icon, is the `onOverlay` parameter
  of Painter.PainterEngine.OnPress.
- Time: the `time.time()` throttling of `refresh_display` and of the SV-square
  redraw, and the preview compositing done there. They are display only. The
  time of a sample is a parameter.
- Pencil texture: the Gaussian blur of masks, `effect_noise`, autocontrast and
  brightness are library randomness and filtering. The pencil dab is modelled
  as a hard disc in the brush colour, with the mask scaled by the opacity
  alpha.
- Image brush: the bicubic resize is modelled as nearest-neighbour resampling
  of the alpha. The inverted-luminance alpha of images without an alpha band
  is left out, because a loaded brush is always converted to RGBA.
- Pixel arithmetic: the exact rounding of `paste`, `ImageChops.multiply`,
  `alpha_composite` and the `ImageEnhance.Brightness` that scales the image
  brush's alpha by the opacity (Raster.ScaleAlpha uses `floor(v * a / 255)`
  in its place). They have integer bodies that keep only the facts the
  engine relies on: a zero mask or zero alpha changes nothing, full alpha
  replaces, and an opaque destination stays opaque.
- Floating point: the model uses exact reals for `colorsys`, interpolation
  and the stamp origin. The only binary64 effect kept is `100 * 2.55` < 255.
- `math.hypot`, `math.atan2` and `distance`: the segment length of a drag and
  the radius and angle of a wheel click are parameters. A drag's segment
  length is required to square to the exact squared distance.
- `save`, the file dialog and decoding of `load_custom_brush`, and
  `_load_builtin_brushes`: file I/O. A load's outcome is a parameter.
- Brush settings widgets: size, opacity, smoothing and spacing keep their
  start-up values (22, 100, 0.28, 25%), because no engine operation changes
  them.
- Raster.InitialImage: the white disc of the start-up image is PIL's
  rasterisation of `ellipse((0, 0, W-1, H-1))`. The model uses the pixels
  `_inside_circle` accepts instead, and the two sets can differ on boundary
  pixels.
- Raster.MaskAt: the same as Raster.InitialImage, for the clip mask
  `make_circle_mask(W)`.
- Raster.DabsClearOutsideDisc: holds of the model's hard-disc dabs only. The
  source blurs the dab masks (`GaussianBlur`), which puts some alpha just
  outside the disc.
- Colour.ParseBase16: only ASCII whitespace and ASCII hex digits are
  recognised. Python's `int()` also accepts Unicode whitespace and digits,
  which the painter's own colour strings never contain.
- Painter.PainterEngine.OnPress: the press timestamp is a parameter rather
  than a clock reading.
- Colour.HsvHex: its own contract gives only the shape of the string. What
  the string parses to is stated by Colour.HsvHexParses, and that it is
  canonical by Painter.PickerColourIsCanonical.
