/**
 * The counting half of `Filters.globalHistogramEqualization`: the 256-bin
 * histogram of the gray levels and its running sums. The rounding of
 * `255.0 * sum / imageSize` that follows is floating point and is not part of
 * this model.
 */
module Histograms {
  import opened Raster

  /** The number of occurrences of v in s. */
  function Count(s: seq<int>, v: int): nat
  {
    if s == [] then 0 else Count(s[..|s| - 1], v) + (if s[|s| - 1] == v then 1 else 0)
  }

  /** The number of entries of s below n. */
  function CountBelow(s: seq<int>, n: int): nat
  {
    if s == [] then 0 else CountBelow(s[..|s| - 1], n) + (if s[|s| - 1] < n then 1 else 0)
  }

  /** a[0] + ... + a[n - 1]. */
  function PrefixSum(a: seq<int>, n: nat): int
    requires n <= |a|
  {
    if n == 0 then 0 else PrefixSum(a, n - 1) + a[n - 1]
  }

  /** The histogram of a gray stream: bin v holds the number of pixels of level v. */
  function HistogramOf(s: seq<int>): (h: seq<int>)
    ensures |h| == 256
  {
    seq(256, v => Count(s, v))
  }

  /** Counting over a concatenation adds the counts of the parts. */
  lemma {:induction false} CountAppend(a: seq<int>, b: seq<int>, v: int)
    ensures Count(a + b, v) == Count(a, v) + Count(b, v)
  {
    if b == [] {
      assert a + b == a;
    } else {
      var init := b[..|b| - 1];
      CountAppend(a, init, v);
      assert (a + b)[..|a + b| - 1] == a + init;
      assert (a + b)[|a + b| - 1] == b[|b| - 1];
    }
  }

  /** One more level below the bound: pixels below n + 1 are those below n plus those equal to n. */
  lemma {:induction false} CountBelowStep(s: seq<int>, n: int)
    ensures CountBelow(s, n + 1) == CountBelow(s, n) + Count(s, n)
  {
    if s != [] {
      CountBelowStep(s[..|s| - 1], n);
    }
  }

  /** A higher bound counts at least as many pixels. */
  lemma {:induction false} CountBelowMonotone(s: seq<int>, m: int, n: int)
    requires m <= n
    ensures CountBelow(s, m) <= CountBelow(s, n)
  {
    if s != [] {
      CountBelowMonotone(s[..|s| - 1], m, n);
    }
  }

  /** Every gray level lies below 256. */
  lemma {:induction false} AllBelow(s: seq<int>)
    requires IsGrayStream(s)
    ensures CountBelow(s, 256) == |s|
  {
    if s != [] {
      AllBelow(s[..|s| - 1]);
    }
  }

  /** The first n bins of the histogram add up to the number of pixels below level n. */
  lemma {:induction false} BinsBelow(s: seq<int>, n: nat)
    requires IsGrayStream(s) && n <= 256
    ensures PrefixSum(HistogramOf(s), n) == CountBelow(s, n)
  {
    if n == 0 {
      ZeroBelow(s);
    } else {
      BinsBelow(s, n - 1);
      CountBelowStep(s, n - 1);
    }
  }

  lemma {:induction false} ZeroBelow(s: seq<int>)
    requires IsGrayStream(s)
    ensures CountBelow(s, 0) == 0
  {
    if s != [] {
      ZeroBelow(s[..|s| - 1]);
    }
  }

  /** The histogram counts of an image add up to `width * height`. */
  lemma HistogramTotal(img: seq<seq<int>>, width: int, height: int)
    requires IsImage(img, width, height)
    ensures PrefixSum(HistogramOf(Flatten(img)), 256) == width * height
  {
    FlattenGray(img, width, height);
    FlattenLength(img, width, height);
    BinsBelow(Flatten(img), 256);
    AllBelow(Flatten(img));
  }

  /** Adding one more row to the stream. */
  lemma FlattenSnoc(img: seq<seq<int>>, y: nat)
    requires y < |img|
    ensures Flatten(img[..y + 1]) == Flatten(img[..y]) + img[y]
  {
    assert img[..y + 1][..y] == img[..y];
  }

  /** The inner `for x` loop of the counting pass: one row's pixels are counted into `histogram`. */
  method CountRow(histogram: array<int>, row: seq<int>)
    requires histogram.Length == 256 && IsGrayStream(row)
    modifies histogram
    ensures forall v :: 0 <= v < 256 ==> histogram[v] == old(histogram[v]) + Count(row, v)
  {
    for x := 0 to |row|
      invariant forall v :: 0 <= v < 256 ==> histogram[v] == old(histogram[v]) + Count(row[..x], v)
    {
      assert row[..x + 1][..x] == row[..x];
      var pixelValue := row[x];
      histogram[pixelValue] := histogram[pixelValue] + 1;
    }
    assert row[..|row|] == row;
  }

  /** The counting pass: bin v of the result is the number of pixels of level v. */
  method Histogram(img: seq<seq<int>>, width: int, height: int) returns (histogram: array<int>)
    requires IsImage(img, width, height)
    ensures fresh(histogram) && histogram.Length == 256
    ensures forall v :: 0 <= v < 256 ==> histogram[v] == Count(Flatten(img), v)
  {
    histogram := new int[256](_ => 0);
    for y := 0 to height
      invariant forall v :: 0 <= v < 256 ==> histogram[v] == Count(Flatten(img[..y]), v)
    {
      CountRow(histogram, img[y]);
      FlattenSnoc(img, y);
      forall v | 0 <= v < 256
        ensures histogram[v] == Count(Flatten(img[..y + 1]), v)
      {
        CountAppend(Flatten(img[..y]), img[y], v);
      }
    }
    assert img[..height] == img;
  }

  /** The running-sum loop: entry i holds histogram[0] + ... + histogram[i]. */
  method CumulativeSums(histogram: array<int>) returns (sumOfPixels: array<int>)
    requires histogram.Length == 256
    ensures fresh(sumOfPixels) && sumOfPixels.Length == 256
    ensures forall i :: 0 <= i < 256 ==> sumOfPixels[i] == PrefixSum(histogram[..], i + 1)
  {
    sumOfPixels := new int[256];
    sumOfPixels[0] := histogram[0];
    for i := 1 to 256
      invariant forall k :: 0 <= k < i ==> sumOfPixels[k] == PrefixSum(histogram[..], k + 1)
    {
      sumOfPixels[i] := sumOfPixels[i - 1] + histogram[i];
    }
  }

  /**
   * Both passes of `globalHistogramEqualization` before rounding: entry i
   * is the number of pixels at level i or below, so the sums never
   * decrease and the last one is the image size.
   */
  method CumulativeHistogram(img: seq<seq<int>>, width: int, height: int) returns (sumOfPixels: array<int>)
    requires IsImage(img, width, height)
    ensures fresh(sumOfPixels) && sumOfPixels.Length == 256
    ensures forall i :: 0 <= i < 256 ==> sumOfPixels[i] == CountBelow(Flatten(img), i + 1)
    ensures forall i, j :: 0 <= i <= j < 256 ==> sumOfPixels[i] <= sumOfPixels[j]
    ensures sumOfPixels[255] == width * height
  {
    var histogram := Histogram(img, width, height);
    sumOfPixels := CumulativeSums(histogram);
    var s := Flatten(img);
    assert histogram[..] == HistogramOf(s);
    FlattenGray(img, width, height);
    forall i | 0 <= i < 256
      ensures sumOfPixels[i] == CountBelow(s, i + 1)
    {
      BinsBelow(s, i + 1);
    }
    forall i, j | 0 <= i <= j < 256
      ensures sumOfPixels[i] <= sumOfPixels[j]
    {
      CountBelowMonotone(s, i + 1, j + 1);
    }
    FlattenLength(img, width, height);
    AllBelow(s);
  }
}
