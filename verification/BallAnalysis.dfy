/** Finding the ball in a downscaled frame: the brightest pixel inside the field, and the
    weighted mean of its neighbourhood. */
module BallAnalysis {
  import opened FieldAnalysis
  import opened FieldRectangle

  datatype Point = Point(x: real, y: real)

  const NEAR := 5
  const MAX_THRESHOLD := 100
  const WEIGHT_THRESHOLD := 270

  // ---- The field window ----

  /** Conversion to int: towards zero. */
  function Trunc(r: real): int {
    if r >= 0.0 then r.Floor else -((-r).Floor)
  }

  lemma TruncMeans(r: real)
    ensures r >= 0.0 ==> Trunc(r) as real <= r < Trunc(r) as real + 1.0
    ensures r <= 0.0 ==> Trunc(r) as real - 1.0 < r <= Trunc(r) as real
  {
  }

  datatype Window = Window(xmin: int, xmax: int, ymin: int, ymax: int)

  /** The first and the last pixel of n that a span of the screen takes in, with a margin. */
  function LowEdge(s: Span, n: nat): int {
    Trunc(0.5 * (1.0 + s.min) * n as real - 1.5)
  }

  function HighEdge(s: Span, n: nat): int {
    Trunc(0.5 * (1.0 + s.max) * n as real + 1.5)
  }

  function WindowOf(f: Field, width: nat, height: nat): Window {
    Window(LowEdge(f.x, width), HighEdge(f.x, width), LowEdge(f.y, height), HighEdge(f.y, height))
  }

  predicate Inside(win: Window, x: int, y: int) {
    win.ymin <= y <= win.ymax && win.xmin <= x <= win.xmax
  }

  // ---- The maximum ----

  predicate Before(y: int, x: int, y': int, x': int) {
    y < y' || (y == y' && x < x')
  }

  /** The brightest value among the pixels of the window before (y, x), in raster order, and
      where it is reached first; 0 at the origin when there is no bright pixel. */
  ghost predicate IsFirstMax(img: Image, win: Window, y: int, x: int, maxx: int, maxy: int, maxValue: int) {
    && (forall j, i {:trigger img[j][i]} ::
          0 <= j < |img| && 0 <= i < |img[j]| && Before(j, i, y, x) && Inside(win, i, j) ==>
          img[j][i] <= maxValue && (Before(j, i, maxy, maxx) ==> img[j][i] < maxValue))
    && if maxValue == 0 then maxx == 0 && maxy == 0
       else && 0 <= maxy < |img| && 0 <= maxx < |img[maxy]| && Before(maxy, maxx, y, x)
            && Inside(win, maxx, maxy) && img[maxy][maxx] == maxValue > 0
  }

  method FindMax(img: Image, width: nat, height: nat, win: Window) returns (maxx: int, maxy: int, maxValue: int)
    requires IsImage(img, width, height)
    ensures IsFirstMax(img, win, height, 0, maxx, maxy, maxValue)
  {
    maxx, maxy, maxValue := 0, 0, 0;
    var y := 0;
    while y < height
      invariant 0 <= y <= height
      invariant IsFirstMax(img, win, y, 0, maxx, maxy, maxValue)
    {
      var x := 0;
      while x < width
        invariant 0 <= x <= width
        invariant IsFirstMax(img, win, y, x, maxx, maxy, maxValue)
      {
        var value := img[y][x];
        if Inside(win, x, y) && value > maxValue {
          maxx, maxy, maxValue := x, y, value;
        }
        x := x + 1;
      }
      y := y + 1;
    }
  }

  // ---- The weighted mean ----

  predicate IsNear(i: int, center: int) {
    center - NEAR <= i <= center + NEAR
  }

  function RowWeight(row: seq<int>, cx: int, n: nat): int
    requires n <= |row|
  {
    if n == 0 then 0 else RowWeight(row, cx, n - 1) + if IsNear(n - 1, cx) then row[n - 1] else 0
  }

  function RowMoment(row: seq<int>, cx: int, n: nat): int
    requires n <= |row|
  {
    if n == 0 then 0 else RowMoment(row, cx, n - 1) + if IsNear(n - 1, cx) then (n - 1) * row[n - 1] else 0
  }

  /** The weight of the neighbourhood of (cx, cy) over the first n rows. */
  function Weight(img: Image, cx: int, cy: int, n: nat): int
    requires n <= |img|
  {
    if n == 0 then 0
    else Weight(img, cx, cy, n - 1) + if IsNear(n - 1, cy) then RowWeight(img[n - 1], cx, |img[n - 1]|) else 0
  }

  /** Its first moments: every pixel's value times its column, and times its row. */
  function MomentX(img: Image, cx: int, cy: int, n: nat): int
    requires n <= |img|
  {
    if n == 0 then 0
    else MomentX(img, cx, cy, n - 1) + if IsNear(n - 1, cy) then RowMoment(img[n - 1], cx, |img[n - 1]|) else 0
  }

  function MomentY(img: Image, cx: int, cy: int, n: nat): int
    requires n <= |img|
  {
    if n == 0 then 0
    else
      MomentY(img, cx, cy, n - 1)
      + if IsNear(n - 1, cy) then (n - 1) * RowWeight(img[n - 1], cx, |img[n - 1]|) else 0
  }

  method AddNearRow(row: seq<int>, y: int, cx: int, avgx0: int, avgy0: int, weight0: int)
    returns (avgx: int, avgy: int, weight: int)
    ensures weight == weight0 + RowWeight(row, cx, |row|)
    ensures avgx == avgx0 + RowMoment(row, cx, |row|)
    ensures avgy == avgy0 + y * RowWeight(row, cx, |row|)
  {
    avgx, avgy, weight := avgx0, avgy0, weight0;
    var x := 0;
    while x < |row|
      invariant 0 <= x <= |row|
      invariant weight == weight0 + RowWeight(row, cx, x)
      invariant avgx == avgx0 + RowMoment(row, cx, x)
      invariant avgy == avgy0 + y * RowWeight(row, cx, x)
    {
      var value := row[x];
      if IsNear(x, cx) {
        assert y * (RowWeight(row, cx, x) + value) == y * RowWeight(row, cx, x) + y * value;
        avgx := avgx + x * value;
        avgy := avgy + y * value;
        weight := weight + value;
      }
      x := x + 1;
    }
  }

  method SumNear(img: Image, cx: int, cy: int) returns (avgx: int, avgy: int, weight: int)
    ensures weight == Weight(img, cx, cy, |img|)
    ensures avgx == MomentX(img, cx, cy, |img|)
    ensures avgy == MomentY(img, cx, cy, |img|)
  {
    avgx, avgy, weight := 0, 0, 0;
    var y := 0;
    while y < |img|
      invariant 0 <= y <= |img|
      invariant weight == Weight(img, cx, cy, y)
      invariant avgx == MomentX(img, cx, cy, y)
      invariant avgy == MomentY(img, cx, cy, y)
    {
      if IsNear(y, cy) {
        avgx, avgy, weight := AddNearRow(img[y], y, cx, avgx, avgy, weight);
      }
      y := y + 1;
    }
  }

  lemma Scaled(i: int, lo: int, hi: int, v: int)
    requires lo <= i <= hi && v >= 0
    ensures lo * v <= i * v <= hi * v
  {
    assert (i - lo) * v >= 0 && (hi - i) * v >= 0;
    assert (i - lo) * v == i * v - lo * v && (hi - i) * v == hi * v - i * v;
  }

  /** Bounded moments add up. */
  lemma Extended(lo: int, hi: int, w: int, m: int, v: int, k: int)
    requires lo * w <= m <= hi * w && lo * v <= k <= hi * v
    ensures lo * (w + v) <= m + k <= hi * (w + v)
  {
    assert lo * (w + v) == lo * w + lo * v && hi * (w + v) == hi * w + hi * v;
  }

  /** lo and hi bound the columns that count. */
  lemma {:induction false} RowBounds(row: seq<int>, cx: int, n: nat, lo: int, hi: int)
    requires n <= |row| && forall x :: 0 <= x < |row| ==> row[x] >= 0
    requires forall x :: 0 <= x < n && IsNear(x, cx) ==> lo <= x <= hi
    ensures RowWeight(row, cx, n) >= 0
    ensures lo * RowWeight(row, cx, n) <= RowMoment(row, cx, n) <= hi * RowWeight(row, cx, n)
    ensures forall x :: 0 <= x < n && IsNear(x, cx) ==> row[x] <= RowWeight(row, cx, n)
  {
    if n > 0 {
      RowBounds(row, cx, n - 1, lo, hi);
      var w, v := RowWeight(row, cx, n - 1), row[n - 1];
      if IsNear(n - 1, cx) {
        Scaled(n - 1, lo, hi, v);
        Extended(lo, hi, w, RowMoment(row, cx, n - 1), v, (n - 1) * v);
      }
    }
  }

  lemma {:induction false} MomentXBounds(img: Image, width: nat, cx: int, cy: int, n: nat, lo: int, hi: int)
    requires IsImage(img, width, |img|) && n <= |img|
    requires forall x :: 0 <= x < width && IsNear(x, cx) ==> lo <= x <= hi
    ensures Weight(img, cx, cy, n) >= 0
    ensures lo * Weight(img, cx, cy, n) <= MomentX(img, cx, cy, n) <= hi * Weight(img, cx, cy, n)
  {
    if n > 0 {
      MomentXBounds(img, width, cx, cy, n - 1, lo, hi);
      RowBounds(img[n - 1], cx, width, lo, hi);
      Extended(lo, hi, Weight(img, cx, cy, n - 1), MomentX(img, cx, cy, n - 1),
               RowWeight(img[n - 1], cx, width), RowMoment(img[n - 1], cx, width));
    }
  }

  lemma {:induction false} MomentYBounds(img: Image, width: nat, cx: int, cy: int, n: nat, lo: int, hi: int)
    requires IsImage(img, width, |img|) && n <= |img|
    requires forall y :: 0 <= y < |img| && IsNear(y, cy) ==> lo <= y <= hi
    ensures Weight(img, cx, cy, n) >= 0
    ensures lo * Weight(img, cx, cy, n) <= MomentY(img, cx, cy, n) <= hi * Weight(img, cx, cy, n)
    ensures forall y, x :: 0 <= y < n && 0 <= x < width && IsNear(y, cy) && IsNear(x, cx) ==>
              img[y][x] <= Weight(img, cx, cy, n)
  {
    if n > 0 {
      MomentYBounds(img, width, cx, cy, n - 1, lo, hi);
      RowBounds(img[n - 1], cx, width, 0, width);
      var v := RowWeight(img[n - 1], cx, width);
      if IsNear(n - 1, cy) {
        Scaled(n - 1, lo, hi, v);
        Extended(lo, hi, Weight(img, cx, cy, n - 1), MomentY(img, cx, cy, n - 1), v, (n - 1) * v);
      }
    }
  }

  /** A mean of integers between lo and hi lies between them. */
  lemma MeanBetween(moment: int, weight: int, lo: int, hi: int)
    requires weight > 0 && lo * weight <= moment <= hi * weight
    ensures lo as real <= moment as real / weight as real <= hi as real
  {
    var w := weight as real;
    var m := moment as real / w;
    assert m * w == moment as real;
    assert (lo * weight) as real == lo as real * w && (hi * weight) as real == hi as real * w;
    assert (lo as real - m) * w <= 0.0 && (m - hi as real) * w <= 0.0;
    SameSign(lo as real - m, w);
    SameSign(m - hi as real, w);
  }

  lemma SameSign(a: real, c: real)
    requires c > 0.0
    ensures a * c > 0.0 <==> a > 0.0
    ensures a * c < 0.0 <==> a < 0.0
  {
  }

  function Mean(moment: int, weight: int): real
    requires weight > 0
  {
    moment as real / weight as real
  }

  /** Centre of a pixel position on the screen. */
  function ScreenOf(mean: real, n: nat): real
    requires n > 0
  {
    2.0 * (0.5 + mean) / n as real - 1.0
  }

  lemma ScreenInside(mean: real, n: nat)
    requires n > 0 && 0.0 <= mean <= (n - 1) as real
    ensures -1.0 < ScreenOf(mean, n) < 1.0
  {
    var d := n as real;
    var q := 2.0 * (0.5 + mean) / d;
    assert q * d == 2.0 * (0.5 + mean);
    SameSign(q, d);
    assert (q - 2.0) * d == q * d - 2.0 * d;
    SameSign(q - 2.0, d);
  }

  /** The weighted mean around a bright pixel lies within five pixels of it, inside the
      image, and strictly inside the screen. */
  lemma CentroidIsClose(img: Image, width: nat, height: nat, cx: nat, cy: nat)
    requires IsImage(img, width, height) && cx < width && cy < height && img[cy][cx] > 0
    ensures var w := Weight(img, cx, cy, height);
            && w >= img[cy][cx]
            && var mx, my := Mean(MomentX(img, cx, cy, height), w), Mean(MomentY(img, cx, cy, height), w);
               && (cx - NEAR) as real <= mx <= (cx + NEAR) as real && 0.0 <= mx <= (width - 1) as real
               && (cy - NEAR) as real <= my <= (cy + NEAR) as real && 0.0 <= my <= (height - 1) as real
               && -1.0 < ScreenOf(mx, width) < 1.0 && -1.0 < ScreenOf(my, height) < 1.0
  {
    MomentXBounds(img, width, cx, cy, height, cx - NEAR, cx + NEAR);
    MomentXBounds(img, width, cx, cy, height, 0, width - 1);
    MomentYBounds(img, width, cx, cy, height, cy - NEAR, cy + NEAR);
    MomentYBounds(img, width, cx, cy, height, 0, height - 1);
    assert IsNear(cy, cy) && IsNear(cx, cx);
    var w, mx, my := Weight(img, cx, cy, height), MomentX(img, cx, cy, height), MomentY(img, cx, cy, height);
    MeanBetween(mx, w, cx - NEAR, cx + NEAR);
    MeanBetween(mx, w, 0, width - 1);
    MeanBetween(my, w, cy - NEAR, cy + NEAR);
    MeanBetween(my, w, 0, height - 1);
    ScreenInside(Mean(mx, w), width);
    ScreenInside(Mean(my, w), height);
  }

  // ---- What one pixel contributes ----

  lemma {:induction false} RowSame(row: seq<int>, other: seq<int>, cx: int, n: nat)
    requires n <= |row| && n <= |other|
    requires forall i :: 0 <= i < n && IsNear(i, cx) ==> row[i] == other[i]
    ensures RowWeight(other, cx, n) == RowWeight(row, cx, n) && RowMoment(other, cx, n) == RowMoment(row, cx, n)
  {
    if n > 0 {
      RowSame(row, other, cx, n - 1);
    }
  }

  lemma {:induction false} RowPixel(row: seq<int>, x: nat, value: int, cx: int, n: nat)
    requires x < n <= |row|
    ensures var more := if cx - 5 <= x <= cx + 5 then value - row[x] else 0;
            && RowWeight(row[x := value], cx, n) == RowWeight(row, cx, n) + more
            && RowMoment(row[x := value], cx, n) == RowMoment(row, cx, n) + x * more
  {
    var r := row[x := value];
    if x < n - 1 {
      RowPixel(row, x, value, cx, n - 1);
    } else {
      RowSame(row, r, cx, n - 1);
      assert x * (value - row[x]) == x * value - x * row[x];
    }
  }

  lemma {:induction false} RowsSame(img: Image, other: Image, cx: int, cy: int, n: nat)
    requires n <= |img| && n <= |other| && forall j :: 0 <= j < n ==> img[j] == other[j]
    ensures Weight(other, cx, cy, n) == Weight(img, cx, cy, n)
    ensures MomentX(other, cx, cy, n) == MomentX(img, cx, cy, n)
    ensures MomentY(other, cx, cy, n) == MomentY(img, cx, cy, n)
  {
    if n > 0 {
      RowsSame(img, other, cx, cy, n - 1);
    }
  }

  /** The last row of n, with one pixel changed. */
  lemma LastRowPixel(img: Image, x: nat, value: int, cx: int, cy: int, n: nat)
    requires 0 < n <= |img| && x < |img[n - 1]|
    ensures var y := n - 1;
            var changed := img[y := img[y][x := value]];
            var more := if cx - 5 <= x <= cx + 5 && cy - 5 <= y <= cy + 5 then value - img[y][x] else 0;
            && Weight(changed, cx, cy, n) == Weight(img, cx, cy, n) + more
            && MomentX(changed, cx, cy, n) == MomentX(img, cx, cy, n) + x * more
            && MomentY(changed, cx, cy, n) == MomentY(img, cx, cy, n) + y * more
  {
    var y := n - 1;
    var row := img[y];
    RowsSame(img, img[y := row[x := value]], cx, cy, y);
    RowPixel(row, x, value, cx, |row|);
    var w, more := RowWeight(row, cx, |row|), if IsNear(x, cx) then value - row[x] else 0;
    assert y * (w + more) == y * w + y * more;
  }

  /** A pixel within five of the centre in both directions counts by its value, times its
      column and times its row; any other does not count. */
  lemma {:induction false} PixelCounts(img: Image, x: nat, y: nat, value: int, cx: int, cy: int, n: nat)
    requires y < n <= |img| && x < |img[y]|
    ensures var changed := img[y := img[y][x := value]];
            var more := if cx - 5 <= x <= cx + 5 && cy - 5 <= y <= cy + 5 then value - img[y][x] else 0;
            && Weight(changed, cx, cy, n) == Weight(img, cx, cy, n) + more
            && MomentX(changed, cx, cy, n) == MomentX(img, cx, cy, n) + x * more
            && MomentY(changed, cx, cy, n) == MomentY(img, cx, cy, n) + y * more
  {
    if y < n - 1 {
      PixelCounts(img, x, y, value, cx, cy, n - 1);
    } else {
      LastRowPixel(img, x, value, cx, cy, n);
    }
  }

  /** A dark image has no weight. */
  lemma {:induction false} DarkImage(img: Image, cx: int, cy: int, n: nat)
    requires n <= |img| && forall j, i :: 0 <= j < |img| && 0 <= i < |img[j]| ==> img[j][i] == 0
    ensures Weight(img, cx, cy, n) == MomentX(img, cx, cy, n) == MomentY(img, cx, cy, n) == 0
  {
    if n > 0 {
      DarkImage(img, cx, cy, n - 1);
      DarkRow(img[n - 1], cx, |img[n - 1]|);
    }
  }

  lemma {:induction false} DarkRow(row: seq<int>, cx: int, n: nat)
    requires n <= |row| && forall i :: 0 <= i < |row| ==> row[i] == 0
    ensures RowWeight(row, cx, n) == RowMoment(row, cx, n) == 0
  {
    if n > 0 {
      DarkRow(row, cx, n - 1);
    }
  }

  // ---- The window ----

  lemma Halved(a: real, d: real)
    ensures 0.5 * a * d == 0.5 * (a * d)
  {
  }

  /** The pixel window never cuts off a pixel whose centre lies in the field. */
  lemma WindowCoversSpan(span: Span, i: nat, n: nat)
    requires i < n && span.min <= ScreenOf(i as real, n) <= span.max
    ensures LowEdge(span, n) <= i <= HighEdge(span, n)
  {
    var d, c := n as real, 2.0 * (0.5 + i as real) / n as real;
    assert c * d == 2.0 * (0.5 + i as real);
    MulMonotoneReal(1.0 + span.min, c, d);
    MulMonotoneReal(c, 1.0 + span.max, d);
    Halved(1.0 + span.min, d);
    Halved(1.0 + span.max, d);
    assert 0.5 * (1.0 + span.min) * d - 1.5 <= i as real - 1.0;
    assert 0.5 * (1.0 + span.max) * d + 1.5 >= i as real + 2.0;
  }

  lemma NotBelow(low: real, c: real, q: real, d: real, i: real)
    requires d > 0.0 && c * d == 2.0 * (0.5 + i) && q * d == 4.0 && i > 0.5 * (low * d) - 2.5
    ensures c > low - q
  {
    assert (c - low + q) * d == c * d - low * d + q * d;
    SameSign(c - low + q, d);
  }

  lemma NotAbove(high: real, c: real, q: real, d: real, i: real)
    requires d > 0.0 && c * d == 2.0 * (0.5 + i) && q * d == 4.0 && i <= 0.5 * (high * d) + 1.5
    ensures c <= high + q
  {
    assert (high + q - c) * d == high * d + q * d - c * d;
    SameSign(high + q - c, d);
  }

  /** Nor does it take in a pixel more than two pixels outside. */
  lemma WindowIsTight(span: Span, i: nat, n: nat)
    requires i < n && -1.0 <= span.max && LowEdge(span, n) <= i <= HighEdge(span, n)
    ensures span.min - 4.0 / n as real < ScreenOf(i as real, n) <= span.max + 4.0 / n as real
  {
    var d := n as real;
    var c, q := 2.0 * (0.5 + i as real) / d, 4.0 / d;
    assert c * d == 2.0 * (0.5 + i as real) && q * d == 4.0;
    Halved(1.0 + span.min, d);
    Halved(1.0 + span.max, d);
    MulMonotoneReal(0.0, 1.0 + span.max, d);
    NotBelow(1.0 + span.min, c, q, d, i as real);
    NotAbove(1.0 + span.max, c, q, d, i as real);
  }

  /** Centres of pixels: symmetric about 0, and 2/n apart. */
  lemma ScreenOfMeans(i: nat, n: nat)
    requires i < n
    ensures ScreenOf((n - 1 - i) as real, n) == -ScreenOf(i as real, n)
    ensures (ScreenOf(i as real + 1.0, n) - ScreenOf(i as real, n)) * n as real == 2.0
  {
    var d, c, e := n as real, ScreenOf(i as real, n), ScreenOf((n - 1 - i) as real, n);
    assert (c + 1.0) * d == 2.0 * (0.5 + i as real);
    assert (e + 1.0) * d == 2.0 * (0.5 + (n - 1 - i) as real);
    assert (c + e) * d == (c + 1.0) * d + (e + 1.0) * d - 2.0 * d;
    SameSign(c + e, d);
    var g := ScreenOf(i as real + 1.0, n);
    assert (g + 1.0) * d == 2.0 * (0.5 + (i as real + 1.0));
    assert (g - c) * d == (g + 1.0) * d - (c + 1.0) * d;
  }

  lemma WindowCoversField(f: Field, width: nat, height: nat, x: nat, y: nat)
    requires x < width && y < height
    requires f.x.min <= ScreenOf(x as real, width) <= f.x.max && f.y.min <= ScreenOf(y as real, height) <= f.y.max
    ensures Inside(WindowOf(f, width, height), x, y)
  {
    WindowCoversSpan(f.x, x, width);
    WindowCoversSpan(f.y, y, height);
  }

  // ---- The whole frame ----

  function InField(p: Point, f: Field): Point
    requires IsField(f)
  {
    Point((p.x - f.x.min) / (f.x.max - f.x.min), (p.y - f.y.min) / (f.y.max - f.y.min))
  }

  /** The corners of the field are (0,0) and (1,1), its middle (1/2,1/2), each axis by itself. */
  lemma InFieldMeans(f: Field)
    requires IsField(f)
    ensures InField(Point(f.x.min, f.y.min), f) == Point(0.0, 0.0)
    ensures InField(Point(f.x.max, f.y.max), f) == Point(1.0, 1.0)
    ensures InField(Point((f.x.min + f.x.max) / 2.0, (f.y.min + f.y.max) / 2.0), f) == Point(0.5, 0.5)
  {
    HalfWay(f.x);
    HalfWay(f.y);
    Whole(f.x.max - f.x.min);
    Whole(f.y.max - f.y.min);
  }

  lemma Whole(d: real)
    requires d > 0.0
    ensures d / d == 1.0 && 0.0 / d == 0.0
  {
  }

  lemma HalfWay(s: Span)
    requires IsSpan(s)
    ensures ((s.min + s.max) / 2.0 - s.min) / (s.max - s.min) == 0.5
  {
    var d := s.max - s.min;
    assert (s.min + s.max) / 2.0 - s.min == 0.5 * d;
  }

  /** And in between it is even: equal steps on the screen are equal steps in the field. */
  lemma InFieldIsEven(f: Field, p: Point, q: Point)
    requires IsField(f)
    ensures (InField(q, f).x - InField(p, f).x) * (f.x.max - f.x.min) == q.x - p.x
    ensures (InField(q, f).y - InField(p, f).y) * (f.y.max - f.y.min) == q.y - p.y
  {
    EvenSteps(p.x - f.x.min, q.x - f.x.min, f.x.max - f.x.min);
    EvenSteps(p.y - f.y.min, q.y - f.y.min, f.y.max - f.y.min);
  }

  lemma EvenSteps(a: real, b: real, d: real)
    requires d > 0.0
    ensures (b / d - a / d) * d == b - a
  {
    assert a / d * d == a && b / d * d == b;
    assert (b / d - a / d) * d == b / d * d - a / d * d;
  }

  // maxx, maxy, maxValue: the brightest pixel; screen and ball are only there when found.
  datatype Sighting = Sighting(found: bool, maxx: int, maxy: int, maxValue: int, screen: Point, ball: Point)

  /** analysis_process_ball_buffer up to the call of analysis_update. */
  method ProcessBallBuffer(img: Image, width: nat, height: nat, field: Field) returns (s: Sighting)
    requires IsImage(img, width, height) && width > 0 && height > 0 && IsField(field)
    ensures IsFirstMax(img, WindowOf(field, width, height), height, 0, s.maxx, s.maxy, s.maxValue)
    ensures s.found <==> s.maxValue > 100 && Weight(img, s.maxx, s.maxy, height) > 270
    ensures s.found ==>
              var w := Weight(img, s.maxx, s.maxy, height);
              var mx := Mean(MomentX(img, s.maxx, s.maxy, height), w);
              var my := Mean(MomentY(img, s.maxx, s.maxy, height), w);
              && (s.maxx - NEAR) as real <= mx <= (s.maxx + NEAR) as real
              && (s.maxy - NEAR) as real <= my <= (s.maxy + NEAR) as real
              && s.screen == Point(ScreenOf(mx, width), ScreenOf(my, height))
              && -1.0 < s.screen.x < 1.0 && -1.0 < s.screen.y < 1.0
              && s.ball == InField(s.screen, field)
  {
    var win := WindowOf(field, width, height);
    var maxx, maxy, maxValue := FindMax(img, width, height, win);
    var avgx, avgy, weight := SumNear(img, maxx, maxy);
    var screen, ball := Point(0.0, 0.0), Point(0.0, 0.0);
    var found := maxValue > MAX_THRESHOLD && weight > WEIGHT_THRESHOLD;
    if found {
      CentroidIsClose(img, width, height, maxx, maxy);
      var x := 0.5 + avgx as real / weight as real;
      var y := 0.5 + avgy as real / weight as real;
      screen := Point(2.0 * x / width as real - 1.0, 2.0 * y / height as real - 1.0);
      ball := Point((screen.x - field.x.min) / (field.x.max - field.x.min),
                    (screen.y - field.y.min) / (field.y.max - field.y.min));
    }
    s := Sighting(found, maxx, maxy, maxValue, screen, ball);
  }
}
