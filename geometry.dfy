/** Canvas geometry of the painter: clamping, the circular drawing region,
    the spacing of brush stamps along a drag and the stamps' bounding boxes. */
module Geometry {
  import opened Wrappers

  /** `clamp(v, lo, hi)`, written `max(lo, min(hi, v))` in the source. */
  function Clamp(v: int, lo: int, hi: int): (r: int)
    ensures lo <= r
    ensures lo <= hi ==> r <= hi
    ensures lo <= v <= hi ==> r == v
    ensures v < lo || hi < lo ==> r == lo
    ensures lo <= hi < v ==> r == hi
  {
    var m := if hi < v then hi else v;
    if lo < m then m else lo
  }

  /** Python's `int()` applied to a float: truncation toward zero. */
  function Trunc(r: real): (n: int)
    ensures 0.0 <= r ==> n as real <= r < n as real + 1.0
    ensures r < 0.0 ==> n as real - 1.0 < r <= n as real
  {
    if r >= 0.0 then r.Floor else -((-r).Floor)
  }

  lemma CastMul(x: int, y: int)
    ensures (x * y) as real == x as real * y as real
  {
  }

  lemma MulDivCancel(x: real, y: real)
    requires y != 0.0
    ensures (x * y) / y == x
  {
  }

  lemma RealQuotientBetween(ar: real, br: real, qr: real)
    requires 0.0 < br && qr * br <= ar < (qr + 1.0) * br
    ensures qr <= ar / br < qr + 1.0
  {
    var up := qr + 1.0;
    DivLe(qr * br, ar, br);
    DivLt(ar, up * br, br);
    MulDivCancel(qr, br);
    MulDivCancel(up, br);
  }

  /** On naturals, truncating the real quotient is the integer quotient. */
  lemma TruncQuotient(a: int, b: int)
    requires 0 <= a && 1 <= b
    ensures Trunc(a as real / b as real) == a / b
  {
    var q := a / b;
    assert q * b <= a < (q + 1) * b;
    CastMul(q, b);
    CastMul(q + 1, b);
    RealQuotientBetween(a as real, b as real, q as real);
  }

  /** `_inside_circle` exactly as written: centre (W/2, H/2), radius W/2,
      on real coordinates. */
  predicate InsideCircleReal(w: int, h: int, x: real, y: real) {
    var cx := w as real / 2.0;
    var cy := h as real / 2.0;
    var r := w as real / 2.0;
    (x - cx) * (x - cx) + (y - cy) * (y - cy) <= r * r
  }

  /** The same test on integer coordinates with the fractions cleared
      (both sides multiplied by 4). */
  predicate InsideCircle(w: int, h: int, x: int, y: int) {
    (2 * x - w) * (2 * x - w) + (2 * y - h) * (2 * y - h) <= w * w
  }

  /** On integer pixels the integer test and the source's test agree exactly. */
  lemma InsideCircleExact(w: int, h: int, x: int, y: int)
    ensures InsideCircle(w, h, x, y) <==> InsideCircleReal(w, h, x as real, y as real)
  {
    var a, b := 2 * x - w, 2 * y - h;
    var ar, br, wr := a as real, b as real, w as real;
    assert x as real - w as real / 2.0 == ar / 2.0;
    assert y as real - h as real / 2.0 == br / 2.0;
    assert (ar / 2.0) * (ar / 2.0) == (ar * ar) / 4.0;
    assert (br / 2.0) * (br / 2.0) == (br * br) / 4.0;
    assert (wr / 2.0) * (wr / 2.0) == (wr * wr) / 4.0;
    assert (a * a) as real == ar * ar;
    assert (b * b) as real == br * br;
    assert (w * w) as real == wr * wr;
  }

  /** A square bounded by another square bounds the number itself. */
  lemma SquareBound(a: int, w: int)
    requires 0 <= w && a * a <= w * w
    ensures -w <= a <= w
  {
  }

  /** A point inside the circle of a square canvas lies within the canvas
      rectangle, closed on the far sides. */
  lemma InsideCircleWithinSquare(w: int, x: int, y: int)
    requires 0 <= w
    requires InsideCircle(w, w, x, y)
    ensures 0 <= x <= w && 0 <= y <= w
  {
    var a, b := 2 * x - w, 2 * y - w;
    assert 0 <= a * a && 0 <= b * b;
    SquareBound(a, w);
    SquareBound(b, w);
  }

  /** A stamp position; interpolated positions are fractional. */
  datatype Point = Point(x: real, y: real)

  lemma MulLe(a: real, b: real, c: real)
    requires a <= b && 0.0 <= c
    ensures a * c <= b * c
  {
  }

  lemma MulLt(a: real, b: real, c: real)
    requires a < b && 0.0 < c
    ensures a * c < b * c
  {
  }

  lemma Expand(s: real, t: real, u: real, v: real)
    ensures (s * u + t * v) * (s * u + t * v) == s * s * (u * u) + 2.0 * s * t * (u * v) + t * t * (v * v)
  {
  }

  lemma DivLe(a: real, b: real, c: real)
    requires a <= b && 0.0 < c
    ensures a / c <= b / c
  {
  }

  lemma DivLt(a: real, b: real, c: real)
    requires a < b && 0.0 < c
    ensures a / c < b / c
  {
  }

  /** Twice the dot product of two vectors is at most the sum of their
      squared lengths. */
  lemma DotBound(u1: real, u2: real, v1: real, v2: real)
    ensures 2.0 * (u1 * v1 + u2 * v2) <= (u1 * u1 + u2 * u2) + (v1 * v1 + v2 * v2)
  {
    assert (u1 - v1) * (u1 - v1) == u1 * u1 - 2.0 * (u1 * v1) + v1 * v1;
    assert (u2 - v2) * (u2 - v2) == u2 * u2 - 2.0 * (u2 * v2) + v2 * v2;
    assert 0.0 <= (u1 - v1) * (u1 - v1) && 0.0 <= (u2 - v2) * (u2 - v2);
  }

  /** A convex combination of two vectors of squared length at most `rr`
      has squared length at most `rr`. */
  lemma ConvexSquares(u1: real, u2: real, v1: real, v2: real, s: real, t: real, rr: real)
    requires 0.0 <= s && 0.0 <= t && s + t == 1.0
    requires u1 * u1 + u2 * u2 <= rr && v1 * v1 + v2 * v2 <= rr
    ensures (s * u1 + t * v1) * (s * u1 + t * v1) + (s * u2 + t * v2) * (s * u2 + t * v2) <= rr
  {
    var uu, vv, uv := u1 * u1 + u2 * u2, v1 * v1 + v2 * v2, u1 * v1 + u2 * v2;
    var st := s * t;
    Expand(s, t, u1, v1);
    Expand(s, t, u2, v2);
    DotBound(u1, u2, v1, v2);
    MulLe(2.0 * uv, uu + vv, st);
    MulLe(uu, rr, s);
    MulLe(vv, rr, t);
    calc {
      (s * u1 + t * v1) * (s * u1 + t * v1) + (s * u2 + t * v2) * (s * u2 + t * v2);
    ==
      s * s * uu + (2.0 * uv) * st + t * t * vv;
    <=
      s * s * uu + (uu + vv) * st + t * t * vv;
    == { assert (uu + vv) * st == s * t * uu + s * t * vv; }
      (s * s + s * t) * uu + (s * t + t * t) * vv;
    == { assert s * s + s * t == s * (s + t) == s;
         assert s * t + t * t == t * (s + t) == t; }
      s * uu + t * vv;
    <=
      s * rr + t * rr;
    ==
      rr;
    }
  }

  /** The disc bounded by the canvas circle is convex: every point of the
      segment between two points inside it is inside it too. */
  lemma DiscConvex(w: int, h: int, a: Point, b: Point, t: real)
    requires 0.0 <= t <= 1.0
    requires InsideCircleReal(w, h, a.x, a.y) && InsideCircleReal(w, h, b.x, b.y)
    ensures InsideCircleReal(w, h, a.x + t * (b.x - a.x), a.y + t * (b.y - a.y))
  {
    var cx, cy := w as real / 2.0, h as real / 2.0;
    var u1, u2, v1, v2 := a.x - cx, a.y - cy, b.x - cx, b.y - cy;
    var s := 1.0 - t;
    ConvexSquares(u1, u2, v1, v2, s, t, (w as real / 2.0) * (w as real / 2.0));
    assert a.x + t * (b.x - a.x) - cx == s * u1 + t * v1;
    assert a.y + t * (b.y - a.y) - cy == s * u2 + t * v2;
  }

  /** The stamp positions `on_drag` places on a segment of `n` stamps from
      (px, py) by (dx, dy): the i-th of them, i = 1..n, at px + dx * (i/n). */
  function Interpolate(px: real, py: real, dx: real, dy: real, n: nat): (r: seq<Point>)
    ensures |r| == n
  {
    seq(n, i requires 0 <= i < n =>
      Point(px + dx * ((i + 1) as real / n as real), py + dy * ((i + 1) as real / n as real)))
  }

  /** The last interpolated stamp lies exactly on the drag target. */
  lemma InterpolateEndsAtTarget(px: real, py: real, dx: real, dy: real, n: nat)
    requires 1 <= n
    ensures Interpolate(px, py, dx, dy, n)[n - 1] == Point(px + dx, py + dy)
  {
    assert n as real / n as real == 1.0;
  }

  /** Consecutive stamps are evenly spaced: each is (dx/n, dy/n) past the
      previous one, the first one past the segment's start. */
  lemma InterpolateEvenlySpaced(px: real, py: real, dx: real, dy: real, n: nat, k: nat)
    requires k < n
    ensures var r := Interpolate(px, py, dx, dy, n);
            var prev := if k == 0 then Point(px, py) else r[k - 1];
            r[k].x - prev.x == dx / n as real && r[k].y - prev.y == dy / n as real
  {
    var nr := n as real;
    assert (k + 1) as real / nr - k as real / nr == 1.0 / nr;
    assert dx * ((k + 1) as real / nr) - dx * (k as real / nr) == dx * (1.0 / nr);
    assert dy * ((k + 1) as real / nr) - dy * (k as real / nr) == dy * (1.0 / nr);
  }

  lemma InterpolatedPointInCircle(w: int, h: int, px: real, py: real, dx: real, dy: real, n: nat, k: nat)
    requires k < n
    requires InsideCircleReal(w, h, px, py) && InsideCircleReal(w, h, px + dx, py + dy)
    ensures var p := Interpolate(px, py, dx, dy, n)[k]; InsideCircleReal(w, h, p.x, p.y)
  {
    var t := (k + 1) as real / n as real;
    DivLe((k + 1) as real, n as real, n as real);
    DiscConvex(w, h, Point(px, py), Point(px + dx, py + dy), t);
    assert px + dx * t == px + t * ((px + dx) - px);
    assert py + dy * t == py + t * ((py + dy) - py);
  }

  /** When both ends of a drag segment lie in the circle, so does every
      stamp position interpolated on it. */
  lemma InterpolateStaysInCircle(w: int, h: int, px: real, py: real, dx: real, dy: real, n: nat)
    requires InsideCircleReal(w, h, px, py) && InsideCircleReal(w, h, px + dx, py + dy)
    ensures var r := Interpolate(px, py, dx, dy, n);
            forall k :: 0 <= k < n ==> InsideCircleReal(w, h, r[k].x, r[k].y)
  {
    forall k | 0 <= k < n
      ensures var p := Interpolate(px, py, dx, dy, n)[k]; InsideCircleReal(w, h, p.x, p.y)
    {
      InterpolatedPointInCircle(w, h, px, py, dx, dy, n, k);
    }
  }

  lemma ScaledTruncAtMost(size: int, factor: real)
    requires 1 <= size && 0.0 <= factor <= 1.0
    ensures Trunc(size as real * factor) <= size
  {
    MulLe(factor, 1.0, size as real);
    assert size as real * factor == factor * size as real;
  }

  /** The spacing `on_drag` keeps between stamps: `size * spacing%/100` for
      the image brush, `size * smoothing` otherwise, truncated, at least 1. */
  function StepSize(imageBrush: bool, size: int, spacingPct: int, smoothing: real): (step: int)
    ensures 1 <= step
    ensures 1 <= size && 0 <= spacingPct <= 100 && 0.0 <= smoothing <= 1.0 ==> step <= size
  {
    var factor := if imageBrush then spacingPct as real / 100.0 else smoothing;
    var raw := Trunc(size as real * factor);
    assert 1 <= size && 0 <= spacingPct <= 100 && 0.0 <= smoothing <= 1.0 ==> raw <= size by {
      if 1 <= size && 0 <= spacingPct <= 100 && 0.0 <= smoothing <= 1.0 {
        DivLe(spacingPct as real, 100.0, 100.0);
        ScaledTruncAtMost(size, factor);
      }
    }
    if raw < 1 then 1 else raw
  }

  lemma QuotientLower(x: real, d: real, q: real)
    requires 0.0 < d && q <= x / d
    ensures q * d <= x
  {
    var e := x / d;
    assert e * d == x;
    MulLe(q, e, d);
  }

  lemma QuotientUpper(x: real, d: real, b: real)
    requires 0.0 < d && x / d < b
    ensures x < b * d
  {
    var e := x / d;
    assert e * d == x;
    MulLt(e, b, d);
  }

  /** The number of stamps a drag segment of length `segLen` receives:
      `max(1, int(segLen // step))`. */
  function StampCount(segLen: real, step: int): (n: int)
    requires 0.0 <= segLen && 1 <= step
    ensures 1 <= n
    ensures step as real <= segLen ==> n as real * step as real <= segLen < (n as real + 1.0) * step as real
    ensures segLen < step as real ==> n == 1
  {
    var q := (segLen / step as real).Floor;
    QuotientLower(segLen, step as real, q as real);
    QuotientUpper(segLen, step as real, q as real + 1.0);
    if q < 1 then 1 else q
  }

  lemma SpacingArith(l: real, sr: real, n: real)
    requires 1.0 <= n && 0.0 < sr && n * sr <= l < (n + 1.0) * sr
    ensures sr <= l / n < 2.0 * sr
  {
    DivLe(n * sr, l, n);
    assert (n * sr) / n == sr;
    MulLe(1.0, n, sr);
    assert (n + 1.0) * sr <= (2.0 * sr) * n;
    DivLt(l, (2.0 * sr) * n, n);
    assert ((2.0 * sr) * n) / n == 2.0 * sr;
  }

  /** On a segment at least one step long, the distance between consecutive
      stamps, segLen / n, is at least one step and less than two: no gaps
      wider than two steps and no build-up at slow speed. */
  lemma StampSpacingWithinStep(segLen: real, step: int)
    requires 1 <= step && step as real <= segLen
    ensures var n := StampCount(segLen, step) as real;
            step as real <= segLen / n < 2.0 * step as real
  {
    SpacingArith(segLen, step as real, StampCount(segLen, step) as real);
  }

  /** A stamp's bounding box `(x0, y0, x1, y1)`, right and bottom exclusive. */
  datatype Box = Box(x0: int, y0: int, x1: int, y1: int)

  predicate InBox(b: Box, x: int, y: int) {
    b.x0 <= x < b.x1 && b.y0 <= y < b.y1
  }

  predicate Encloses(outer: Box, inner: Box) {
    outer.x0 <= inner.x0 && outer.y0 <= inner.y0 && inner.x1 <= outer.x1 && inner.y1 <= outer.y1
  }

  /** Every pixel of an enclosed box lies in the enclosing box. */
  lemma EnclosesInBox(outer: Box, inner: Box, x: int, y: int)
    requires Encloses(outer, inner) && InBox(inner, x, y)
    ensures InBox(outer, x, y)
  {
  }

  /** The union of two boxes as `_stamp_at` accumulates it: the smallest box
      enclosing both. */
  function Union(a: Box, b: Box): (u: Box)
    ensures Encloses(u, a) && Encloses(u, b)
    ensures forall c :: Encloses(c, a) && Encloses(c, b) ==> Encloses(c, u)
  {
    Box(if a.x0 <= b.x0 then a.x0 else b.x0, if a.y0 <= b.y0 then a.y0 else b.y0,
        if a.x1 >= b.x1 then a.x1 else b.x1, if a.y1 >= b.y1 then a.y1 else b.y1)
  }

  /** `last_drawn_bbox` after one more stamp: the stamp's box when none was
      recorded since the press, the union otherwise. It never shrinks. */
  function Accumulate(acc: Option<Box>, b: Box): (r: Box)
    ensures Encloses(r, b)
    ensures acc.Some? ==> Encloses(r, acc.value)
    ensures acc.None? ==> r == b
  {
    match acc
    case None => b
    case Some(a) => Union(a, b)
  }

  /** `last_drawn_bbox` after stamping each of `boxes` in turn, starting
      from `acc`: present once anything was stamped, enclosing every stamp
      placed and whatever was recorded before. */
  function AccumulateAll(acc: Option<Box>, boxes: seq<Box>): (r: Option<Box>)
    ensures |boxes| == 0 ==> r == acc
    ensures |boxes| > 0 ==> r.Some?
    ensures acc.Some? ==> r.Some? && Encloses(r.value, acc.value)
  {
    if |boxes| == 0 then acc
    else Some(Accumulate(AccumulateAll(acc, boxes[..|boxes| - 1]), boxes[|boxes| - 1]))
  }

  /** The recorded box encloses every box stamped. */
  lemma {:induction false} AccumulateAllEncloses(acc: Option<Box>, boxes: seq<Box>)
    ensures AccumulateAll(acc, boxes).Some? ==>
      forall k :: 0 <= k < |boxes| ==> Encloses(AccumulateAll(acc, boxes).value, boxes[k])
  {
    if |boxes| > 0 {
      AccumulateAllEncloses(acc, boxes[..|boxes| - 1]);
    }
  }

  lemma AccumulateAllSnoc(acc: Option<Box>, boxes: seq<Box>, b: Box)
    ensures AccumulateAll(acc, boxes + [b]) == Some(Accumulate(AccumulateAll(acc, boxes), b))
  {
    assert (boxes + [b])[..|boxes|] == boxes;
  }
}
