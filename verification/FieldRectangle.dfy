/** The smoothed field rectangle, in screen coordinates (each axis -1 to 1). */
module FieldRectangle {
  import opened FieldAnalysis

  datatype Span = Span(min: real, max: real)
  datatype Field = Field(x: Span, y: Span)

  const INITIAL := Field(Span(-0.9, 0.9), Span(-0.9, 0.9))
  const FPLUS := 0.5 * 2.143
  const FMIN := 0.5 * -0.143

  /** A span one can divide by, on the screen. */
  predicate IsSpan(s: Span) {
    -1.0 <= s.min < s.max <= 1.0
  }

  predicate IsField(f: Field) {
    IsSpan(f.x) && IsSpan(f.y)
  }

  /** Pixel edge i of n on the screen. */
  function Screen(i: int, n: nat): real
    requires n > 0
  {
    2.0 * i as real / n as real - 1.0
  }

  /** The white bars: widen a span about its middle. */
  function Widened(s: Span): Span {
    Span(FMIN * s.max + FPLUS * s.min, FPLUS * s.max + FMIN * s.min)
  }

  /** Each end is clamped on its own side only. */
  function Clamped(s: Span): Span {
    Span(if s.min < -1.0 then -1.0 else s.min, if s.max > 1.0 then 1.0 else s.max)
  }

  /** From the peak columns lo to hi of n: one more pixel on each side, plus the right-hand
      corner of the last. */
  function Detected(lo: int, hi: int, n: nat): Span
    requires n > 0
  {
    Clamped(Widened(Span(Screen(lo - 1, n), Screen(hi + 1 + 1, n))))
  }

  function Averaged(s: Span, t: Span): Span {
    Span(0.80 * s.min + 0.20 * t.min, 0.80 * s.max + 0.20 * t.max)
  }

  lemma ScreenMonotone(i: int, j: int, n: nat)
    requires n > 0 && i < j
    ensures Screen(i, n) < Screen(j, n)
  {
    var d := n as real;
    var a, b := 2.0 * i as real / d, 2.0 * j as real / d;
    assert a * d == 2.0 * i as real && b * d == 2.0 * j as real;
    if a >= b {
      MulMonotoneReal(b, a, d);
      assert false;
    }
  }

  lemma MulMonotoneReal(a: real, b: real, c: real)
    requires a <= b && c >= 0.0
    ensures a * c <= b * c
  {
    assert (b - a) * c >= 0.0;
  }

  lemma ScreenEnds(n: nat)
    requires n > 0
    ensures Screen(0, n) == -1.0 && Screen(n, n) == 1.0
  {
    assert 2.0 * n as real / n as real == 2.0;
  }

  /** However the peak lies, the span found is on the screen, has a width, and still covers
      every peak pixel. */
  lemma DetectedIsSpan(lo: nat, hi: nat, n: nat)
    requires lo <= hi < n
    ensures IsSpan(Detected(lo, hi, n))
    ensures Detected(lo, hi, n).min <= Screen(lo, n) < Screen(hi + 1, n) <= Detected(lo, hi, n).max
  {
    ScreenEnds(n);
    ScreenMonotone(lo - 1, lo, n);
    ScreenMonotone(lo, hi + 1, n);
    ScreenMonotone(hi + 1, hi + 2, n);
    if lo > 0 {
      ScreenMonotone(0, lo, n);
    }
    if hi + 1 < n {
      ScreenMonotone(hi + 1, n, n);
    }
  }

  /** Widening keeps the middle of a span and makes it 1.143 times as wide. */
  lemma WidenedMeans(s: Span)
    ensures Widened(s).min + Widened(s).max == s.min + s.max
    ensures Widened(s).max - Widened(s).min == 1.143 * (s.max - s.min)
  {
  }

  /** A pixel on the screen: the first edge at -1, each further one 2/n on. */
  lemma ScreenMeans(i: int, n: nat)
    requires n > 0
    ensures (Screen(i, n) + 1.0) * n as real == 2.0 * i as real
  {
  }

  /** The span detected: before clamping it is that from one pixel in front of the peak to two
      behind its last, widened; clamping moves an end only to the edge of the screen. */
  lemma DetectedMeans(lo: nat, hi: nat, n: nat)
    requires lo <= hi < n
    ensures var wide := Widened(Span(Screen(lo - 1, n), Screen(hi + 2, n)));
            && Detected(lo, hi, n).min == (if wide.min < -1.0 then -1.0 else wide.min)
            && Detected(lo, hi, n).max == (if wide.max > 1.0 then 1.0 else wide.max)
  {
  }

  /** One frame moves each end a fifth of the way to the span detected. */
  lemma AveragedMeans(s: Span, t: Span)
    ensures Averaged(s, t).min - t.min == 0.8 * (s.min - t.min)
    ensures Averaged(s, t).max - t.max == 0.8 * (s.max - t.max)
  {
  }

  function Power(base: real, k: nat): real {
    if k == 0 then 1.0 else base * Power(base, k - 1)
  }

  /** Both ends of r are p times as far from goal as those of s. */
  predicate CloserBy(r: Span, s: Span, goal: Span, p: real) {
    r.min - goal.min == p * (s.min - goal.min) && r.max - goal.max == p * (s.max - goal.max)
  }

  lemma CloserStep(r: Span, s: Span, goal: Span, p: real)
    requires CloserBy(r, Averaged(s, goal), goal, p)
    ensures CloserBy(r, s, goal, 0.8 * p)
  {
    AveragedMeans(s, goal);
    Scaled(p, Averaged(s, goal).min - goal.min, s.min - goal.min);
    Scaled(p, Averaged(s, goal).max - goal.max, s.max - goal.max);
  }

  lemma Scaled(p: real, a: real, b: real)
    requires a == 0.8 * b
    ensures p * a == 0.8 * p * b
  {
  }

  /** While camera and table stand still the rectangle closes in on the one detected. */
  lemma {:induction false} RectangleConverges(f: Field, bs: seq<Box>, b: Box)
    requires IsBox(b) && forall i :: 0 <= i < |bs| ==> bs[i] == b
    ensures var r := Run(f, bs);
            && CloserBy(r.x, f.x, Detected(b.xmin, b.xmax, b.width), Power(0.8, |bs|))
            && CloserBy(r.y, f.y, Detected(b.ymin, b.ymax, b.height), Power(0.8, |bs|))
    decreases |bs|
  {
    if bs != [] {
      var r := Run(f, bs);
      RectangleConverges(Updated(f, b), bs[1..], b);
      CloserStep(r.x, f.x, Detected(b.xmin, b.xmax, b.width), Power(0.8, |bs| - 1));
      CloserStep(r.y, f.y, Detected(b.ymin, b.ymax, b.height), Power(0.8, |bs| - 1));
    }
  }

  lemma AveragedIsSpan(s: Span, t: Span)
    requires IsSpan(s) && IsSpan(t)
    ensures IsSpan(Averaged(s, t))
  {
  }

  /** The column and row ranges found in one frame of the given size. */
  datatype Box = Box(xmin: nat, xmax: nat, ymin: nat, ymax: nat, width: nat, height: nat)

  predicate IsBox(b: Box) {
    b.xmin <= b.xmax < b.width && b.ymin <= b.ymax < b.height
  }

  function Updated(f: Field, b: Box): Field
    requires IsBox(b)
  {
    Field(Averaged(f.x, Detected(b.xmin, b.xmax, b.width)), Averaged(f.y, Detected(b.ymin, b.ymax, b.height)))
  }

  function Run(f: Field, bs: seq<Box>): Field
    requires forall i :: 0 <= i < |bs| ==> IsBox(bs[i])
    decreases |bs|
  {
    if bs == [] then f else Run(Updated(f, bs[0]), bs[1..])
  }

  lemma UpdatedIsField(f: Field, b: Box)
    requires IsField(f) && IsBox(b)
    ensures IsField(Updated(f, b))
  {
    DetectedIsSpan(b.xmin, b.xmax, b.width);
    DetectedIsSpan(b.ymin, b.ymax, b.height);
    AveragedIsSpan(f.x, Detected(b.xmin, b.xmax, b.width));
    AveragedIsSpan(f.y, Detected(b.ymin, b.ymax, b.height));
  }

  /** Over any sequence of frames the rectangle stays on the screen and never collapses, so
      the ball's field coordinates are always defined. */
  lemma {:induction false} FieldStaysField(f: Field, bs: seq<Box>)
    requires IsField(f) && forall i :: 0 <= i < |bs| ==> IsBox(bs[i])
    ensures IsField(Run(f, bs))
    decreases |bs|
  {
    if bs != [] {
      UpdatedIsField(f, bs[0]);
      FieldStaysField(Updated(f, bs[0]), bs[1..]);
    }
  }

  class FieldTracker {
    var field: Field

    constructor ()
      ensures field == INITIAL && IsField(field)
    {
      field := INITIAL;
    }

    /** The second half of analysis_process_field_buffer: from pixel ranges to the screen,
        and the time average. */
    method Smooth(box: Box)
      requires IsBox(box) && IsField(field)
      modifies this
      ensures field == Updated(old(field), box) && IsField(field)
    {
      UpdatedIsField(field, box);
      var newX := Span(Screen(box.xmin - 1, box.width), Screen(box.xmax + 1 + 1, box.width));
      var newY := Span(Screen(box.ymin - 1, box.height), Screen(box.ymax + 1 + 1, box.height));
      newX, newY := Clamped(Widened(newX)), Clamped(Widened(newY));
      field := Field(Averaged(field.x, newX), Averaged(field.y, newY));
    }

    /** analysis_process_field_buffer */
    method ProcessFieldBuffer(img: Image, width: nat, height: nat) returns (box: Box)
      requires IsImage(img, width, height) && width > 0 && height > 0
      requires IsField(field)
      modifies this
      ensures IsBox(box) && box.width == width && box.height == height && IsBoxOf(img, box)
      ensures field == Updated(old(field), box) && IsField(field)
      ensures HasCounted(img, 0, width - 1, 0, height - 1) ==> HasCounted(img, box.xmin, box.xmax, box.ymin, box.ymax)
    {
      box := FindBox(img, width, height);
      Smooth(box);
    }
  }

  ghost predicate HasCounted(img: Image, xmin: nat, xmax: nat, ymin: nat, ymax: nat) {
    exists y, x :: ymin <= y <= ymax && xmin <= x <= xmax && PixelAt(img, x, y) > NOISE
  }

  function RowSums(img: Image, width: nat): seq<int>
    requires IsImage(img, width, |img|)
  {
    seq(|img|, y requires 0 <= y < |img| => RowSum(img[y], 0, width))
  }

  function ColumnSums(img: Image, width: nat): seq<int> {
    seq(width, x requires 0 <= x < width => ColumnSum(img, x, |img|))
  }

  /** lo..hi is the range above half the mean. */
  ghost predicate IsPeak(sums: seq<int>, lo: nat, hi: nat) {
    exists bound: nat ::
      && IsPeakRange(sums, bound, lo, hi)
      && 2 * (|sums| * bound) <= Sum(sums, 0, |sums|) < 2 * (|sums| * (bound + 1))
  }

  ghost predicate IsBoxOf(img: Image, b: Box)
    requires IsImage(img, b.width, b.height)
  {
    IsPeak(ColumnSums(img, b.width), b.xmin, b.xmax) && IsPeak(RowSums(img, b.width), b.ymin, b.ymax)
  }

  /** The first half of analysis_process_field_buffer: sums and peak ranges. */
  method FindBox(img: Image, width: nat, height: nat) returns (box: Box)
    requires IsImage(img, width, height) && width > 0 && height > 0
    ensures IsBox(box) && box.width == width && box.height == height
    ensures IsBoxOf(img, box)
    ensures HasCounted(img, 0, width - 1, 0, height - 1) ==> HasCounted(img, box.xmin, box.xmax, box.ymin, box.ymax)
  {
    var rowSums, columnSums := new int[height], new int[width];
    var totalValue := Sums(img, width, height, rowSums, columnSums);
    ghost var xSums, ySums := rowSums[..], columnSums[..];
    TotalIsPositive(img, width, height, xSums);
    var xmin, xmax, yBound := PeakRange(columnSums, totalValue);
    var ymin, ymax, xBound := PeakRange(rowSums, totalValue);
    box := Box(xmin, xmax, ymin, ymax, width, height);
    assert IsPeak(ySums, xmin, xmax) && IsPeak(xSums, ymin, ymax);
    assert ySums == ColumnSums(img, width) && xSums == RowSums(img, width);
    if totalValue > 0 {
      BoxHoldsCountedPixel(img, width, height, xSums, ySums, totalValue,
                           xBound, yBound, xmin, xmax, ymin, ymax);
      ghost var y, x :| ymin <= y <= ymax && xmin <= x <= xmax && img[y][x] > NOISE;
      assert PixelAt(img, x, y) > NOISE;
    }
  }

  lemma {:induction false} SumPositive(s: seq<int>, hi: nat)
    requires hi <= |s| && forall i :: 0 <= i < |s| ==> s[i] >= 0
    ensures Sum(s, 0, hi) >= 0
    ensures (exists i :: 0 <= i < hi && s[i] > 0) ==> Sum(s, 0, hi) > 0
  {
    if hi > 0 {
      SumPositive(s, hi - 1);
    }
  }

  lemma {:induction false} RowPositive(row: seq<int>, hi: nat)
    requires hi <= |row|
    ensures (exists x :: 0 <= x < hi && row[x] > NOISE) ==> RowSum(row, 0, hi) > 0
  {
    if hi > 0 {
      RowPositive(row, hi - 1);
    }
  }

  /** A counted pixel makes the total positive. */
  lemma TotalIsPositive(img: Image, width: nat, height: nat, xSums: seq<int>)
    requires IsImage(img, width, height) && width > 0 && height > 0
    requires |xSums| == height && forall y :: 0 <= y < height ==> xSums[y] == RowSum(img[y], 0, width)
    ensures Sum(xSums, 0, height) >= 0
    ensures HasCounted(img, 0, width - 1, 0, height - 1) ==> Sum(xSums, 0, height) > 0
  {
    SumPositive(xSums, height);
    if HasCounted(img, 0, width - 1, 0, height - 1) {
      var y, x :| 0 <= y <= height - 1 && 0 <= x <= width - 1 && PixelAt(img, x, y) > NOISE;
      RowPositive(img[y], width);
      assert xSums[y] > 0;
    }
  }
}
