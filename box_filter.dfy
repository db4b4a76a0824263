/**
 * `Filters.smoothingBoxFilter(inputImage, maskSize)`: each output pixel is
 * the truncated mean of the in-image pixels at offsets from
 * -(maskSize / 2) to +maskSize in both directions. The upper end is
 * `maskSize`, not `maskSize / 2`, so the window is not centred on the pixel.
 */
module BoxFilter {
  import opened Results
  import opened Raster
  import opened JavaInt
  import opened Windows

  /** The offsets run from -subMask to maskSize, with subMask = maskSize / 2 truncated toward zero. */
  function BoxWindow(img: seq<seq<int>>, width: int, height: int, x: int, y: int, maskSize: int): seq<int>
    requires IsImage(img, width, height)
  {
    Window(img, width, height, x, y, -Quot(maskSize, 2), maskSize)
  }

  /** One output pixel: sum / count, which throws when no pixel was taken. */
  function BoxValue(img: seq<seq<int>>, width: int, height: int, x: int, y: int, maskSize: int): Result<int, FilterError>
    requires IsImage(img, width, height)
  {
    var win := BoxWindow(img, width, height, x, y, maskSize);
    if |win| == 0 then Err(ArithmeticException) else Ok(Quot(Sum(win), |win|))
  }

  /**
   * The division is defined exactly when maskSize >= 0: the centre offset 0
   * then lies in -subMask .. maskSize, and for a negative maskSize the range
   * is empty.
   */
  lemma BoxDefined(img: seq<seq<int>>, width: int, height: int, x: int, y: int, maskSize: int)
    requires IsImage(img, width, height) && InImage(x, y, width, height)
    ensures BoxValue(img, width, height, x, y, maskSize).Err? <==> maskSize < 0
    ensures BoxValue(img, width, height, x, y, maskSize).Err? ==> BoxValue(img, width, height, x, y, maskSize).error == ArithmeticException
  {
    var lo := -Quot(maskSize, 2);
    assert BoxWindow(img, width, height, x, y, maskSize) == Window(img, width, height, x, y, lo, maskSize);
    WindowCentre(img, width, height, x, y, lo, maskSize);
  }

  /**
   * For maskSize >= 0 the output is the floor mean of the window, lies
   * between the window's darkest and brightest pixel, and so is a gray level.
   */
  lemma BoxMean(img: seq<seq<int>>, width: int, height: int, x: int, y: int, maskSize: int)
    requires IsImage(img, width, height) && InImage(x, y, width, height) && maskSize >= 0
    ensures var win := BoxWindow(img, width, height, x, y, maskSize);
      && win != []
      && BoxValue(img, width, height, x, y, maskSize) == Ok(Sum(win) / |win|)
      && Min(win) <= Sum(win) / |win| <= Max(win)
      && IsGray(Sum(win) / |win|)
  {
    var win := BoxWindow(img, width, height, x, y, maskSize);
    BoxDefined(img, width, height, x, y, maskSize);
    BoxWindowGray(img, width, height, x, y, maskSize);
    GraySum(win);
    GrayMean(win);
  }

  /** Every value of a box window is a gray level. */
  lemma BoxWindowGray(img: seq<seq<int>>, width: int, height: int, x: int, y: int, maskSize: int)
    requires IsImage(img, width, height)
    ensures IsGrayStream(BoxWindow(img, width, height, x, y, maskSize))
  {
    var lo := -Quot(maskSize, 2);
    assert BoxWindow(img, width, height, x, y, maskSize) == Window(img, width, height, x, y, lo, maskSize);
    WindowGray(img, width, height, x, y, lo, maskSize);
  }

  /**
   * Away from the borders the window has (maskSize + maskSize / 2 + 1)^2
   * pixels: 25 for maskSize 3, where a centred 3x3 mask has 9.
   */
  lemma BoxWindowSize(img: seq<seq<int>>, width: int, height: int, x: int, y: int, maskSize: int)
    requires IsImage(img, width, height) && maskSize >= 0
    requires 0 <= x - maskSize / 2 && x + maskSize < width && 0 <= y - maskSize / 2 && y + maskSize < height
    ensures |BoxWindow(img, width, height, x, y, maskSize)| == (maskSize + maskSize / 2 + 1) * (maskSize + maskSize / 2 + 1)
  {
    var half := Quot(maskSize, 2);
    assert half == maskSize / 2;
    var lo, end := -half, maskSize + 1;
    assert |BoxWindow(img, width, height, x, y, maskSize)| == |WindowRows(img, width, height, x, y, lo, end, maskSize)|;
    WindowRowsSize(img, width, height, x, y, lo, end, maskSize);
    SquareSides(end - lo, maskSize + 1 - lo, maskSize + maskSize / 2 + 1);
  }

  /** A window whose two sides are both n holds n * n pixels. */
  lemma SquareSides(rows: int, columns: int, n: int)
    requires rows == n && columns == n
    ensures rows * columns == n * n
  {
  }

  /** The inner `for xi` loop: adds one row part's pixels to the running sum and count. */
  method AccumulateRow(img: seq<seq<int>>, width: int, height: int, x: int, y: int, yj: int, lo: int, hi: int, sum0: int, count0: int)
    returns (sum: int, count: int)
    requires IsImage(img, width, height)
    ensures sum == sum0 + Sum(RowWindow(img, width, height, x, y, yj, lo, hi + 1))
    ensures count == count0 + |RowWindow(img, width, height, x, y, yj, lo, hi + 1)|
  {
    sum, count := sum0, count0;
    var xi := lo;
    while xi <= hi
      invariant xi == lo || xi <= hi + 1
      invariant sum == sum0 + Sum(RowWindow(img, width, height, x, y, yj, lo, xi))
      invariant count == count0 + |RowWindow(img, width, height, x, y, yj, lo, xi)|
      decreases hi - xi
    {
      var before := RowWindow(img, width, height, x, y, yj, lo, xi);
      if InImage(x + xi, y + yj, width, height) {
        var pixelValue := img[y + yj][x + xi];
        SumAppend(before, [pixelValue]);
        sum := sum + pixelValue;
        count := count + 1;
      } else {
        assert RowWindow(img, width, height, x, y, yj, lo, xi + 1) == before;
      }
      xi := xi + 1;
    }
  }

  /** One more row of offsets adds that row's pixels to the window's sum and size. */
  lemma WindowRowsStep(img: seq<seq<int>>, width: int, height: int, x: int, y: int, lo: int, yj: int, hi: int)
    requires IsImage(img, width, height) && lo <= yj
    ensures Sum(WindowRows(img, width, height, x, y, lo, yj + 1, hi))
      == Sum(WindowRows(img, width, height, x, y, lo, yj, hi)) + Sum(RowWindow(img, width, height, x, y, yj, lo, hi + 1))
    ensures |WindowRows(img, width, height, x, y, lo, yj + 1, hi)|
      == |WindowRows(img, width, height, x, y, lo, yj, hi)| + |RowWindow(img, width, height, x, y, yj, lo, hi + 1)|
  {
    SumAppend(WindowRows(img, width, height, x, y, lo, yj, hi), RowWindow(img, width, height, x, y, yj, lo, hi + 1));
  }

  /** One pass of the `for yj` loop: the running sum and count take in row yj of the window. */
  method AccumulateWindowRow(img: seq<seq<int>>, width: int, height: int, x: int, y: int, lo: int, yj: int, hi: int, sum0: int, count0: int)
    returns (sum: int, count: int)
    requires IsImage(img, width, height) && lo <= yj
    requires sum0 == Sum(WindowRows(img, width, height, x, y, lo, yj, hi))
    requires count0 == |WindowRows(img, width, height, x, y, lo, yj, hi)|
    ensures sum == Sum(WindowRows(img, width, height, x, y, lo, yj + 1, hi))
    ensures count == |WindowRows(img, width, height, x, y, lo, yj + 1, hi)|
  {
    WindowRowsStep(img, width, height, x, y, lo, yj, hi);
    sum, count := AccumulateRow(img, width, height, x, y, yj, lo, hi, sum0, count0);
  }

  /** The two window loops over the offsets lo .. hi: the sum and the number of the window's pixels. */
  method WindowSums(img: seq<seq<int>>, width: int, height: int, x: int, y: int, lo: int, hi: int) returns (sumPixelValue: int, count: int)
    requires IsImage(img, width, height)
    ensures sumPixelValue == Sum(Window(img, width, height, x, y, lo, hi))
    ensures count == |Window(img, width, height, x, y, lo, hi)|
  {
    sumPixelValue, count := 0, 0;
    var yj := lo;
    assert WindowRows(img, width, height, x, y, lo, yj, hi) == [];
    while yj <= hi
      invariant lo <= yj && (yj == lo || yj <= hi + 1)
      invariant sumPixelValue == Sum(WindowRows(img, width, height, x, y, lo, yj, hi))
      invariant count == |WindowRows(img, width, height, x, y, lo, yj, hi)|
      decreases hi - yj
    {
      sumPixelValue, count := AccumulateWindowRow(img, width, height, x, y, lo, yj, hi, sumPixelValue, count);
      yj := yj + 1;
    }
    var end := hi + 1;
    if yj != end {
      assert WindowRows(img, width, height, x, y, lo, end, hi) == [];
    }
  }

  /** The window loops and the division for the pixel at (x, y). */
  method BoxPixel(img: seq<seq<int>>, width: int, height: int, x: int, y: int, maskSize: int) returns (r: Result<int, FilterError>)
    requires IsImage(img, width, height) && maskSize < Two31 - 1
    ensures r == BoxValue(img, width, height, x, y, maskSize)
  {
    var subMask := Quot(maskSize, 2);
    var lo := -subMask;
    var sumPixelValue, count := WindowSums(img, width, height, x, y, lo, maskSize);
    assert BoxWindow(img, width, height, x, y, maskSize) == Window(img, width, height, x, y, lo, maskSize);
    if count == 0 {
      return Err(ArithmeticException);
    }
    r := Ok(Quot(sumPixelValue, count));
  }

  /**
   * `smoothingBoxFilter(inputImage, maskSize)`: every pixel is mapped by
   * `BoxValue`; a negative maskSize makes the very first division throw.
   * For `Integer.MAX_VALUE` the `yj <= maskSize` loop never ends, as no `int`
   * exceeds it, so that one mask size is not modelled.
   */
  method SmoothingBoxFilter(img: seq<seq<int>>, width: int, height: int, maskSize: int) returns (r: Result<array2<int>, FilterError>)
    requires IsImage(img, width, height) && maskSize < Two31 - 1
    ensures r.Err? <==> maskSize < 0
    ensures r.Err? ==> r.error == ArithmeticException
    ensures r.Ok? ==> fresh(r.value) && r.value.Length0 == height && r.value.Length1 == width
    ensures r.Ok? ==> forall y, x :: 0 <= y < height && 0 <= x < width ==> BoxValue(img, width, height, x, y, maskSize) == Ok(r.value[y, x])
  {
    var outputImg := new int[height, width];
    for y := 0 to height
      invariant y > 0 ==> maskSize >= 0
      invariant forall yy, xx :: 0 <= yy < y && 0 <= xx < width ==> BoxValue(img, width, height, xx, yy, maskSize) == Ok(outputImg[yy, xx])
    {
      for x := 0 to width
        invariant x > 0 ==> maskSize >= 0
        invariant forall yy, xx :: 0 <= yy < y && 0 <= xx < width ==> BoxValue(img, width, height, xx, yy, maskSize) == Ok(outputImg[yy, xx])
        invariant forall xx :: 0 <= xx < x ==> BoxValue(img, width, height, xx, y, maskSize) == Ok(outputImg[y, xx])
      {
        var newPixelValue := BoxPixel(img, width, height, x, y, maskSize);
        BoxDefined(img, width, height, x, y, maskSize);
        if newPixelValue.Err? {
          return Err(ArithmeticException);
        }
        outputImg[y, x] := newPixelValue.value;
      }
    }
    r := Ok(outputImg);
  }
}
