/**
 * `Filters.smoothingWeightedAverageFilter`: each output pixel is the sum of
 * the in-image pixels of its 3x3 neighbourhood, each times its kernel
 * weight, divided by 16 (the total of the kernel) whatever the number of
 * neighbours inside the image.
 */
module WeightedFilter {
  import opened Raster
  import opened JavaInt
  import opened Windows

  /** The kernel, indexed [yj + 1][xi + 1]. */
  const Kernel: seq<seq<int>> := [[1, 2, 1], [2, 4, 2], [1, 2, 1]]

  predicate IsOffset(d: int)
  {
    -1 <= d <= 1
  }

  /** The kernel weight of offset (xi, yj). */
  function KernelWeight(xi: int, yj: int): (k: nat)
    requires IsOffset(xi) && IsOffset(yj)
    ensures 1 <= k <= 4
  {
    Kernel[yj + 1][xi + 1]
  }

  /** Weighted pixels of row offset yj for column offsets -1 .. xiEnd - 1. */
  function WeightedRow(img: seq<seq<int>>, width: int, height: int, x: int, y: int, yj: int, xiEnd: int): int
    requires IsImage(img, width, height) && IsOffset(yj) && xiEnd <= 2
    decreases xiEnd
  {
    if xiEnd <= -1 then 0
    else
      var xi := xiEnd - 1;
      WeightedRow(img, width, height, x, y, yj, xi)
        + (if Inside(width, height, x, y, xi, yj) then Neighbour(img, width, height, x, y, xi, yj) * KernelWeight(xi, yj) else 0)
  }

  /** Weighted pixels of row offsets -1 .. yjEnd - 1, each over column offsets -1 .. xiEnd - 1. */
  function WeightedRows(img: seq<seq<int>>, width: int, height: int, x: int, y: int, yjEnd: int, xiEnd: int): int
    requires IsImage(img, width, height) && yjEnd <= 2 && xiEnd <= 2
    decreases yjEnd
  {
    if yjEnd <= -1 then 0 else WeightedRows(img, width, height, x, y, yjEnd - 1, xiEnd) + WeightedRow(img, width, height, x, y, yjEnd - 1, xiEnd)
  }

  /** The kernel weights of the in-image neighbours in row offset yj, columns -1 .. xiEnd - 1. */
  function WeightRow(width: int, height: int, x: int, y: int, yj: int, xiEnd: int): nat
    requires IsOffset(yj) && xiEnd <= 2
    decreases xiEnd
  {
    if xiEnd <= -1 then 0
    else
      var xi := xiEnd - 1;
      WeightRow(width, height, x, y, yj, xi) + (if Inside(width, height, x, y, xi, yj) then KernelWeight(xi, yj) else 0)
  }

  function WeightRows(width: int, height: int, x: int, y: int, yjEnd: int, xiEnd: int): nat
    requires yjEnd <= 2 && xiEnd <= 2
    decreases yjEnd
  {
    if yjEnd <= -1 then 0 else WeightRows(width, height, x, y, yjEnd - 1, xiEnd) + WeightRow(width, height, x, y, yjEnd - 1, xiEnd)
  }

  /** One output pixel: the weighted sum divided by 16. */
  function WeightedValue(img: seq<seq<int>>, width: int, height: int, x: int, y: int): int
    requires IsImage(img, width, height)
  {
    Quot(WeightedRows(img, width, height, x, y, 2, 2), 16)
  }

  /** Every in-image neighbour of (x, y) lies in lo .. hi. */
  predicate NeighboursWithin(img: seq<seq<int>>, width: int, height: int, x: int, y: int, lo: int, hi: int)
    requires IsImage(img, width, height)
  {
    forall xi, yj :: -1 <= xi <= 1 && -1 <= yj <= 1 && Inside(width, height, x, y, xi, yj) ==>
      lo <= Neighbour(img, width, height, x, y, xi, yj) <= hi
  }

  lemma Distribute(a: int, b: int, c: int)
    ensures a * (b + c) == a * b + a * c
  {
  }

  /** The weighted row sum lies between lo and hi times the row's in-image weight. */
  lemma {:induction false} RowWithin(img: seq<seq<int>>, width: int, height: int, x: int, y: int, yj: int, xiEnd: int, lo: int, hi: int)
    requires IsImage(img, width, height) && IsOffset(yj) && xiEnd <= 2
    requires NeighboursWithin(img, width, height, x, y, lo, hi)
    ensures lo * WeightRow(width, height, x, y, yj, xiEnd) <= WeightedRow(img, width, height, x, y, yj, xiEnd) <= hi * WeightRow(width, height, x, y, yj, xiEnd)
    decreases xiEnd
  {
    if xiEnd > -1 {
      var xi := xiEnd - 1;
      RowWithin(img, width, height, x, y, yj, xi, lo, hi);
      var w := WeightRow(width, height, x, y, yj, xi);
      if Inside(width, height, x, y, xi, yj) {
        var k := KernelWeight(xi, yj);
        var p := Neighbour(img, width, height, x, y, xi, yj);
        var sum := WeightedRow(img, width, height, x, y, yj, xi);
        WeightStep(lo, hi, w, sum, k, p);
        assert WeightRow(width, height, x, y, yj, xiEnd) == w + k;
        assert WeightedRow(img, width, height, x, y, yj, xiEnd) == sum + p * k;
      } else {
        assert WeightRow(width, height, x, y, yj, xiEnd) == w;
      }
    }
  }

  /** One more neighbour p of weight k keeps the sum between lo and hi times the weight. */
  lemma WeightStep(lo: int, hi: int, w: int, sum: int, k: int, p: int)
    requires lo * w <= sum <= hi * w && lo <= p <= hi && k >= 0
    ensures lo * (w + k) <= sum + p * k <= hi * (w + k)
  {
    ScaleLe(lo, p, k);
    ScaleLe(p, hi, k);
    Distribute(lo, w, k);
    Distribute(hi, w, k);
  }

  /** The weighted sum of the neighbourhood lies between lo and hi times its in-image weight. */
  lemma RowsWithin(img: seq<seq<int>>, width: int, height: int, x: int, y: int, lo: int, hi: int)
    requires IsImage(img, width, height)
    requires NeighboursWithin(img, width, height, x, y, lo, hi)
    ensures lo * WeightRows(width, height, x, y, 2, 2) <= WeightedRows(img, width, height, x, y, 2, 2)
      <= hi * WeightRows(width, height, x, y, 2, 2)
  {
    RowWithin(img, width, height, x, y, -1, 2, lo, hi);
    RowWithin(img, width, height, x, y, 0, 2, lo, hi);
    RowWithin(img, width, height, x, y, 1, 2, lo, hi);
    var w1, w2, w3 := WeightRow(width, height, x, y, -1, 2), WeightRow(width, height, x, y, 0, 2), WeightRow(width, height, x, y, 1, 2);
    var s1, s2, s3 := WeightedRow(img, width, height, x, y, -1, 2), WeightedRow(img, width, height, x, y, 0, 2), WeightedRow(img, width, height, x, y, 1, 2);
    BoundsAdd(lo, hi, w1, w2, w3, s1, s2, s3, WeightRows(width, height, x, y, 2, 2), WeightedRows(img, width, height, x, y, 2, 2));
  }

  /** Bounds k * w on three rows add up to bounds on their sum. */
  lemma BoundsAdd(lo: int, hi: int, w1: int, w2: int, w3: int, s1: int, s2: int, s3: int, total: int, sum: int)
    requires lo * w1 <= s1 <= hi * w1 && lo * w2 <= s2 <= hi * w2 && lo * w3 <= s3 <= hi * w3
    requires total == w1 + w2 + w3 && sum == s1 + s2 + s3
    ensures lo * total <= sum <= hi * total
  {
    Distribute(lo, w1 + w2, w3);
    Distribute(lo, w1, w2);
    Distribute(hi, w1 + w2, w3);
    Distribute(hi, w1, w2);
  }

  /** The in-image kernel weights add up to at most 16, the kernel's total. */
  lemma WeightAtMost16(width: int, height: int, x: int, y: int)
    ensures WeightRows(width, height, x, y, 2, 2) <= 16
  {
    RowWeightAtMost(width, height, x, y, -1);
    RowWeightAtMost(width, height, x, y, 0);
    RowWeightAtMost(width, height, x, y, 1);
    assert WeightRows(width, height, x, y, -1, 2) == 0;
  }

  /** The in-image weights of one row add up to at most the kernel row's total, 8 in the middle row and 4 in the others. */
  lemma RowWeightAtMost(width: int, height: int, x: int, y: int, yj: int)
    requires IsOffset(yj)
    ensures WeightRow(width, height, x, y, yj, 2) <= if yj == 0 then 8 else 4
  {
    assert WeightRow(width, height, x, y, yj, -1) == 0;
  }

  /** Away from the border all nine neighbours are inside and their weights add up to 16. */
  lemma InteriorWeight(width: int, height: int, x: int, y: int)
    requires 1 <= x < width - 1 && 1 <= y < height - 1
    ensures WeightRows(width, height, x, y, 2, 2) == 16
  {
  }

  /** Every output value is a gray level: the weighted sum is at most 255 * 16. */
  lemma WeightedGray(img: seq<seq<int>>, width: int, height: int, x: int, y: int)
    requires IsImage(img, width, height)
    ensures IsGray(WeightedValue(img, width, height, x, y))
  {
    RowsWithin(img, width, height, x, y, 0, 255);
    WeightAtMost16(width, height, x, y);
    ScaleLe(WeightRows(width, height, x, y, 2, 2), 16, 255);
  }

  /** Away from the border a neighbourhood of one level v is left unchanged. */
  lemma WeightedUniform(img: seq<seq<int>>, width: int, height: int, x: int, y: int, v: int)
    requires IsImage(img, width, height) && 1 <= x < width - 1 && 1 <= y < height - 1
    requires NeighboursWithin(img, width, height, x, y, v, v)
    ensures WeightedValue(img, width, height, x, y) == v
  {
    RowsWithin(img, width, height, x, y, v, v);
    InteriorWeight(width, height, x, y);
    assert WeightedRows(img, width, height, x, y, 2, 2) == v * 16;
    assert v >= 0 by {
      assert Inside(width, height, x, y, 0, 0);
    }
  }

  /** The inner `for xi` loop of one neighbourhood row. */
  method WeightRowLoop(img: seq<seq<int>>, width: int, height: int, x: int, y: int, yj: int, sum0: int) returns (sum: int)
    requires IsImage(img, width, height) && IsOffset(yj)
    ensures sum == sum0 + WeightedRow(img, width, height, x, y, yj, 2)
  {
    sum := sum0;
    for xi := -1 to 2
      invariant sum == sum0 + WeightedRow(img, width, height, x, y, yj, xi)
    {
      if 0 <= x + xi < width && 0 <= y + yj < height {
        var pixelValue := img[y + yj][x + xi];
        sum := sum + pixelValue * Kernel[yj + 1][xi + 1];
      }
    }
  }

  /** The neighbourhood loops and the division for the pixel at (x, y). */
  method WeightedPixel(img: seq<seq<int>>, width: int, height: int, x: int, y: int) returns (v: int)
    requires IsImage(img, width, height)
    ensures v == WeightedValue(img, width, height, x, y)
  {
    var sumPixelValue := 0;
    for yj := -1 to 2
      invariant sumPixelValue == WeightedRows(img, width, height, x, y, yj, 2)
    {
      sumPixelValue := WeightRowLoop(img, width, height, x, y, yj, sumPixelValue);
    }
    v := Quot(sumPixelValue, 16);
  }

  /** `smoothingWeightedAverageFilter(inputImage)`: every pixel is mapped by `WeightedValue`. */
  method SmoothingWeightedAverageFilter(img: seq<seq<int>>, width: int, height: int) returns (outputImg: array2<int>)
    requires IsImage(img, width, height)
    ensures fresh(outputImg) && outputImg.Length0 == height && outputImg.Length1 == width
    ensures forall y, x :: 0 <= y < height && 0 <= x < width ==> outputImg[y, x] == WeightedValue(img, width, height, x, y)
  {
    outputImg := new int[height, width];
    for y := 0 to height
      invariant forall yy, xx :: 0 <= yy < y && 0 <= xx < width ==> outputImg[yy, xx] == WeightedValue(img, width, height, xx, yy)
    {
      for x := 0 to width
        invariant forall yy, xx :: 0 <= yy < y && 0 <= xx < width ==> outputImg[yy, xx] == WeightedValue(img, width, height, xx, yy)
        invariant forall xx :: 0 <= xx < x ==> outputImg[y, xx] == WeightedValue(img, width, height, xx, y)
      {
        outputImg[y, x] := WeightedPixel(img, width, height, x, y);
      }
    }
  }
}
