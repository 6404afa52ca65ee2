/** Finding the field in a downscaled frame: row and column sums, the box around the main
    peak, and the smoothed field rectangle. */
module FieldAnalysis {

  const NOISE := 20

  // Rows of pixels in raster order, each value in 0..255.
  type Image = seq<seq<int>>

  predicate IsImage(img: Image, width: nat, height: nat) {
    && |img| == height
    && forall y :: 0 <= y < height ==> |img[y]| == width && forall x :: 0 <= x < width ==> 0 <= img[y][x] < 256
  }

  /** What a pixel adds to the sums: very small noise is ignored. */
  function Counted(value: int): int {
    if value > NOISE then value else 0
  }

  // ---- Sums ----

  function Sum(s: seq<int>, lo: nat, hi: nat): int
    requires lo <= hi <= |s|
    decreases hi
  {
    if hi == lo then 0 else Sum(s, lo, hi - 1) + s[hi - 1]
  }

  lemma {:induction false} SumUpdate(s: seq<int>, i: nat, v: int, hi: nat)
    requires i < |s| && hi <= |s|
    ensures Sum(s[i := v], 0, hi) == Sum(s, 0, hi) + if i < hi then v - s[i] else 0
  {
    if hi > 0 {
      SumUpdate(s, i, v, hi - 1);
    }
  }

  lemma {:induction false} SumSplit(s: seq<int>, lo: nat, mid: nat, hi: nat)
    requires lo <= mid <= hi <= |s|
    ensures Sum(s, lo, hi) == Sum(s, lo, mid) + Sum(s, mid, hi)
    decreases hi
  {
    if mid < hi {
      SumSplit(s, lo, mid, hi - 1);
    }
  }

  lemma {:induction false} SumAtMost(s: seq<int>, lo: nat, hi: nat, bound: nat)
    requires lo <= hi <= |s| && forall i :: lo <= i < hi ==> s[i] <= bound
    ensures Sum(s, lo, hi) <= (hi - lo) * bound
    decreases hi
  {
    if lo < hi {
      SumAtMost(s, lo, hi - 1, bound);
      assert (hi - lo) * bound == (hi - 1 - lo) * bound + bound;
    }
  }

  lemma {:induction false} SumZero(s: seq<int>, lo: nat, hi: nat)
    requires lo <= hi <= |s| && forall i :: lo <= i < hi ==> s[i] == 0
    ensures Sum(s, lo, hi) == 0
    decreases hi
  {
    if lo < hi {
      SumZero(s, lo, hi - 1);
    }
  }

  function RowSum(row: seq<int>, lo: nat, hi: nat): (r: int)
    requires lo <= hi <= |row|
    decreases hi
    ensures r >= 0
  {
    if hi == lo then 0 else RowSum(row, lo, hi - 1) + Counted(row[hi - 1])
  }

  /** A pixel counts by its value if that is above 20, and otherwise not at all. */
  lemma {:induction false} RowSumPixel(row: seq<int>, x: nat, value: int, hi: nat)
    requires x < hi <= |row|
    ensures var weight := (v: int) => if v > 20 then v else 0;
            RowSum(row[x := value], 0, hi) == RowSum(row, 0, hi) + weight(value) - weight(row[x])
  {
    if x < hi - 1 {
      RowSumPixel(row, x, value, hi - 1);
    } else {
      RowSumPrefix(row, row[x := value], hi - 1);
    }
  }

  lemma {:induction false} RowSumPrefix(row: seq<int>, other: seq<int>, hi: nat)
    requires hi <= |row| && hi <= |other| && forall i :: 0 <= i < hi ==> row[i] == other[i]
    ensures RowSum(other, 0, hi) == RowSum(row, 0, hi)
  {
    if hi > 0 {
      RowSumPrefix(row, other, hi - 1);
    }
  }

  function PixelAt(img: Image, x: nat, y: nat): int {
    if y < |img| && x < |img[y]| then img[y][x] else 0
  }

  /** The sum of column x over the first n rows. */
  function ColumnSum(img: Image, x: nat, n: nat): (r: int)
    ensures r >= 0
  {
    if n == 0 then 0 else ColumnSum(img, x, n - 1) + Counted(PixelAt(img, x, n - 1))
  }

  /** One row of the double loop over the pixels. */
  method AddRow(img: Image, y: nat, xSums: array<int>, ySums: array<int>, total: int) returns (totalValue: int)
    requires xSums != ySums && y < |img| == xSums.Length && |img[y]| == ySums.Length && xSums[y] == 0
    requires forall i :: 0 <= i < ySums.Length ==> ySums[i] == ColumnSum(img, i, y)
    requires total == Sum(xSums[..], 0, xSums.Length) == Sum(ySums[..], 0, ySums.Length)
    modifies xSums, ySums
    ensures xSums[..] == old(xSums[..])[y := RowSum(img[y], 0, ySums.Length)]
    ensures forall i :: 0 <= i < ySums.Length ==> ySums[i] == ColumnSum(img, i, y + 1)
    ensures totalValue == Sum(xSums[..], 0, xSums.Length) == Sum(ySums[..], 0, ySums.Length)
  {
    totalValue := total;
    var x := 0;
    while x < ySums.Length
      invariant 0 <= x <= ySums.Length
      invariant xSums[..] == old(xSums[..])[y := RowSum(img[y], 0, x)]
      invariant forall i :: 0 <= i < ySums.Length ==> ySums[i] == ColumnSum(img, i, if i < x then y + 1 else y)
      invariant totalValue == Sum(xSums[..], 0, xSums.Length) == Sum(ySums[..], 0, ySums.Length)
    {
      var value := img[y][x];
      if value > NOISE {
        AddTo(xSums, y, value);
        AddTo(ySums, x, value);
        totalValue := totalValue + value;
      }
      x := x + 1;
    }
  }

  method AddTo(sums: array<int>, i: nat, value: int)
    requires i < sums.Length
    modifies sums
    ensures sums[..] == old(sums[..])[i := old(sums[i]) + value]
    ensures Sum(sums[..], 0, sums.Length) == Sum(old(sums[..]), 0, sums.Length) + value
  {
    SumUpdate(sums[..], i, sums[i] + value, sums.Length);
    ghost var was := sums[..];
    sums[i] := sums[i] + value;
    assert sums[..] == was[i := was[i] + value];
  }

  /** xSums, ySums and totalValue: the sum of every row, of every column, and of all. */
  method Sums(img: Image, width: nat, height: nat, xSums: array<int>, ySums: array<int>) returns (totalValue: int)
    requires IsImage(img, width, height)
    requires xSums != ySums && xSums.Length == height && ySums.Length == width
    modifies xSums, ySums
    ensures forall y :: 0 <= y < height ==> xSums[y] == RowSum(img[y], 0, width)
    ensures forall x :: 0 <= x < width ==> ySums[x] == ColumnSum(img, x, height)
    ensures totalValue == Sum(xSums[..], 0, height) == Sum(ySums[..], 0, width)
  {
    forall i | 0 <= i < height {
      xSums[i] := 0;
    }
    forall i | 0 <= i < width {
      ySums[i] := 0;
    }
    totalValue := 0;
    SumZero(xSums[..], 0, height);
    SumZero(ySums[..], 0, width);
    var y := 0;
    while y < height
      invariant 0 <= y <= height
      invariant forall j :: 0 <= j < height ==> xSums[j] == if j < y then RowSum(img[j], 0, width) else 0
      invariant forall i :: 0 <= i < width ==> ySums[i] == ColumnSum(img, i, y)
      invariant totalValue == Sum(xSums[..], 0, height) == Sum(ySums[..], 0, width)
    {
      ghost var was := xSums[..];
      totalValue := AddRow(img, y, xSums, ySums, totalValue);
      assert forall j :: 0 <= j < height ==> xSums[..][j] == was[y := RowSum(img[y], 0, width)][j];
      y := y + 1;
    }
  }

  // ---- The box ----

  /** The first and the last index above half the mean, 0 and 0 when there is none; the
      second loop of the source does not look at index 0.  bound is the half mean, rounded
      down. */
  method PeakRange(sums: array<int>, totalValue: nat) returns (lo: nat, hi: nat, bound: nat)
    requires sums.Length > 0
    ensures 2 * (sums.Length * bound) <= totalValue < 2 * (sums.Length * (bound + 1))
    ensures IsPeakRange(sums[..], bound, lo, hi)
  {
    bound := HalfMean(totalValue, sums.Length);
    lo, hi := 0, 0;
    var x := 0;
    while x < sums.Length
      invariant 0 <= x <= sums.Length && lo == 0
      invariant forall i :: 0 <= i < x ==> sums[i] <= bound
    {
      if sums[x] > bound {
        lo := x;
        break;
      }
      x := x + 1;
    }
    var last := sums.Length - 1;
    while last > 0
      invariant 0 <= last < sums.Length && hi == 0
      invariant forall i :: last < i < sums.Length ==> sums[i] <= bound
    {
      if sums[last] > bound {
        hi := last;
        break;
      }
      last := last - 1;
    }
  }

  /** lo and hi are the first and the last index above the bound, both 0 if there is none. */
  ghost predicate IsPeakRange(sums: seq<int>, bound: nat, lo: nat, hi: nat) {
    && lo <= hi < |sums|
    && (forall i :: 0 <= i < lo ==> sums[i] <= bound)
    && (forall i :: hi < i < |sums| ==> sums[i] <= bound)
    && (if exists i :: 0 <= i < |sums| && sums[i] > bound
        then sums[lo] > bound && sums[hi] > bound
        else lo == 0 && hi == 0)
  }

  method HalfMean(total: nat, n: nat) returns (bound: nat)
    requires n > 0
    ensures 2 * (n * bound) <= total < 2 * (n * (bound + 1))
  {
    bound := total / (2 * n);
    assert total == 2 * n * bound + total % (2 * n);
    assert 2 * (n * bound) == 2 * n * bound && n * (bound + 1) == n * bound + n;
  }

  /** a and b entries of at most bound, not all n of them, are less than half the total. */
  lemma OutsideIsMinority(a: nat, b: nat, n: nat, bound: nat, total: nat)
    requires a + b < n && 2 * (n * bound) <= total && 0 < total
    ensures 2 * (a * bound + b * bound) < total
  {
    assert a * bound + b * bound == (a + b) * bound;
    MulMonotone(a + b, n - 1, bound);
    assert (n - 1) * bound == n * bound - bound;
  }

  lemma MulMonotone(a: nat, b: nat, c: nat)
    requires a <= b
    ensures a * c <= b * c
  {
  }

  /** With half the mean as the bound the range holds strictly more than half of the total. */
  lemma PeakHoldsMajority(sums: seq<int>, total: nat, bound: nat, lo: nat, hi: nat)
    requires total == Sum(sums, 0, |sums|) > 0 && 2 * (|sums| * bound) <= total
    requires IsPeakRange(sums, bound, lo, hi)
    ensures 2 * Sum(sums, lo, hi + 1) > total
  {
    var n := |sums|;
    SumSplit(sums, 0, lo, n);
    SumSplit(sums, lo, hi + 1, n);
    SumAtMost(sums, 0, lo, bound);
    SumAtMost(sums, hi + 1, n, bound);
    OutsideIsMinority(lo, n - (hi + 1), n, bound, total);
  }

  // ---- The box contains a counted pixel ----

  function ColumnsSum(img: Image, lo: nat, hi: nat): int
    requires lo <= hi
    decreases hi
  {
    if hi == lo then 0 else ColumnsSum(img, lo, hi - 1) + ColumnSum(img, hi - 1, |img|)
  }

  /** Columns lo to hi, summed row by row over the first n rows. */
  function RowsSum(img: Image, lo: nat, hi: nat, n: nat): int
    requires lo <= hi && n <= |img| && forall y :: 0 <= y < n ==> hi <= |img[y]|
  {
    if n == 0 then 0 else RowsSum(img, lo, hi, n - 1) + RowSum(img[n - 1], lo, hi)
  }

  lemma {:induction false} RowsSumNextColumn(img: Image, lo: nat, hi: nat, n: nat)
    requires lo < hi && n <= |img| && forall y :: 0 <= y < n ==> hi <= |img[y]|
    ensures RowsSum(img, lo, hi, n) == RowsSum(img, lo, hi - 1, n) + ColumnSum(img, hi - 1, n)
  {
    if n > 0 {
      RowsSumNextColumn(img, lo, hi, n - 1);
    }
  }

  lemma {:induction false} RowsSumEmpty(img: Image, lo: nat, n: nat)
    requires n <= |img| && forall y :: 0 <= y < n ==> lo <= |img[y]|
    ensures RowsSum(img, lo, lo, n) == 0
  {
    if n > 0 {
      RowsSumEmpty(img, lo, n - 1);
    }
  }

  /** Summing by columns or by rows is the same. */
  lemma {:induction false} SumsSwap(img: Image, lo: nat, hi: nat)
    requires lo <= hi && forall y :: 0 <= y < |img| ==> hi <= |img[y]|
    ensures ColumnsSum(img, lo, hi) == RowsSum(img, lo, hi, |img|)
    decreases hi
  {
    if hi == lo {
      RowsSumEmpty(img, lo, |img|);
    } else {
      SumsSwap(img, lo, hi - 1);
      RowsSumNextColumn(img, lo, hi, |img|);
    }
  }

  lemma RowPart(row: seq<int>, lo: nat, hi: nat)
    requires lo <= hi <= |row|
    ensures RowSum(row, lo, hi) <= RowSum(row, 0, |row|)
  {
    RowSplit(row, 0, lo, |row|);
    RowSplit(row, lo, hi, |row|);
  }

  lemma {:induction false} RowSplit(row: seq<int>, lo: nat, mid: nat, hi: nat)
    requires lo <= mid <= hi <= |row|
    ensures RowSum(row, lo, hi) == RowSum(row, lo, mid) + RowSum(row, mid, hi)
    decreases hi
  {
    if mid < hi {
      RowSplit(row, lo, mid, hi - 1);
    }
  }

  lemma {:induction false} RowNone(row: seq<int>, lo: nat, hi: nat)
    requires lo <= hi <= |row| && forall x :: lo <= x < hi ==> row[x] <= NOISE
    ensures RowSum(row, lo, hi) == 0
    decreases hi
  {
    if lo < hi {
      RowNone(row, lo, hi - 1);
    }
  }

  /** If no counted pixel of columns lo..hi lies in rows top..bottom, those columns weigh no
      more than the other rows do. */
  lemma {:induction false} ColumnsOutsideRows(img: Image, xSums: seq<int>, lo: nat, hi: nat,
                                              top: nat, bottom: nat, n: nat)
    requires n <= |img| == |xSums| && lo <= hi && top <= bottom < |img|
    requires forall y :: 0 <= y < |img| ==> hi <= |img[y]| && xSums[y] == RowSum(img[y], 0, |img[y]|)
    requires forall y, x :: top <= y <= bottom && lo <= x < hi ==> img[y][x] <= NOISE
    ensures RowsSum(img, lo, hi, n) <= Sum(xSums, 0, n) - if n <= top then 0
                                       else if n <= bottom then Sum(xSums, top, n) else Sum(xSums, top, bottom + 1)
  {
    if n > 0 {
      ColumnsOutsideRows(img, xSums, lo, hi, top, bottom, n - 1);
      if top <= n - 1 <= bottom {
        RowNone(img[n - 1], lo, hi);
      } else {
        RowPart(img[n - 1], lo, hi);
      }
    }
  }

  lemma {:induction false} ColumnsSumIs(img: Image, ySums: seq<int>, lo: nat, hi: nat)
    requires lo <= hi <= |ySums| && forall x :: 0 <= x < |ySums| ==> ySums[x] == ColumnSum(img, x, |img|)
    ensures ColumnsSum(img, lo, hi) == Sum(ySums, lo, hi)
    decreases hi
  {
    if lo < hi {
      ColumnsSumIs(img, ySums, lo, hi - 1);
    }
  }

  /** Each range holds a majority, so they meet: the box contains a counted pixel. */
  lemma BoxHoldsCountedPixel(img: Image, width: nat, height: nat, xSums: seq<int>, ySums: seq<int>, total: nat,
                             xBound: nat, yBound: nat, xmin: nat, xmax: nat, ymin: nat, ymax: nat)
    requires IsImage(img, width, height) && total > 0
    requires |xSums| == height > 0 && forall y :: 0 <= y < height ==> xSums[y] == RowSum(img[y], 0, width)
    requires |ySums| == width > 0 && forall x :: 0 <= x < width ==> ySums[x] == ColumnSum(img, x, height)
    requires total == Sum(xSums, 0, height) == Sum(ySums, 0, width)
    requires IsPeakRange(ySums, yBound, xmin, xmax) && 2 * (width * yBound) <= total
    requires IsPeakRange(xSums, xBound, ymin, ymax) && 2 * (height * xBound) <= total
    ensures exists y, x :: ymin <= y <= ymax && xmin <= x <= xmax && img[y][x] > NOISE
  {
    if forall y, x :: ymin <= y <= ymax && xmin <= x < xmax + 1 ==> img[y][x] <= NOISE {
      PeakHoldsMajority(ySums, total, yBound, xmin, xmax);
      PeakHoldsMajority(xSums, total, xBound, ymin, ymax);
      ColumnsSumIs(img, ySums, xmin, xmax + 1);
      SumsSwap(img, xmin, xmax + 1);
      ColumnsOutsideRows(img, xSums, xmin, xmax + 1, ymin, ymax, height);
      assert false;
    }
  }
}
