/**
 * `Filters.laplacianSharpeningFilter`: the image is first copied into a
 * buffer one pixel wider on every side whose border repeats the nearest
 * edge pixel; each output pixel is then the pixel minus the 3x3 Laplacian
 * response at it, clamped to 0 .. 255.
 */
module Laplacian {
  import opened Raster

  /** The filter table, indexed [ky + 1][kx + 1]. */
  const Filter: seq<seq<int>> := [[1, 1, 1], [1, -8, 1], [1, 1, 1]]

  /** The index 0 .. n - 1 nearest to v. */
  function Clamp(v: int, n: int): (r: int)
    requires n >= 1
    ensures 0 <= r < n
    ensures 0 <= v < n ==> r == v
    ensures v < 0 ==> r == 0
    ensures v >= n ==> r == n - 1
  {
    if v < 0 then 0 else if v >= n then n - 1 else v
  }

  /** `Math.max(0, Math.min(255, v))`. */
  function ClampGray(v: int): (r: int)
    ensures IsGray(r)
    ensures IsGray(v) ==> r == v
    ensures v < 0 ==> r == 0
    ensures v > 255 ==> r == 255
  {
    if v < 0 then 0 else if v > 255 then 255 else v
  }

  /**
   * The padded buffer at (px, py), 0 <= px <= width + 1, 0 <= py <= height + 1:
   * the image pixel (px - 1, py - 1) moved to the nearest pixel inside.
   */
  function Padded(img: seq<seq<int>>, width: int, height: int, px: int, py: int): int
    requires IsImage(img, width, height)
  {
    img[Clamp(py - 1, height)][Clamp(px - 1, width)]
  }

  /** The filter response over row offset ky, column offsets -1 .. kxEnd - 1, at padded (x, y). */
  function ResponseRow(img: seq<seq<int>>, width: int, height: int, x: int, y: int, ky: int, kxEnd: int): int
    requires IsImage(img, width, height) && -1 <= ky <= 1 && kxEnd <= 2
    decreases kxEnd
  {
    if kxEnd <= -1 then 0
    else
      var kx := kxEnd - 1;
      ResponseRow(img, width, height, x, y, ky, kx) + Padded(img, width, height, x + kx, y + ky) * Filter[ky + 1][kx + 1]
  }

  /** The filter response over row offsets -1 .. kyEnd - 1, each over column offsets -1 .. kxEnd - 1. */
  function Response(img: seq<seq<int>>, width: int, height: int, x: int, y: int, kyEnd: int, kxEnd: int): int
    requires IsImage(img, width, height) && kyEnd <= 2 && kxEnd <= 2
    decreases kyEnd
  {
    if kyEnd <= -1 then 0
    else Response(img, width, height, x, y, kyEnd - 1, kxEnd) + ResponseRow(img, width, height, x, y, kyEnd - 1, kxEnd)
  }

  /** Output pixel (x, y): the padded pixel minus the full response, clamped. */
  function LaplacianValue(img: seq<seq<int>>, width: int, height: int, x: int, y: int): int
    requires IsImage(img, width, height)
  {
    ClampGray(Padded(img, width, height, x + 1, y + 1) - Response(img, width, height, x + 1, y + 1, 2, 2))
  }

  /** The padding puts the image in the middle and repeats the nearest edge pixel around it. */
  lemma PaddingReplicates(img: seq<seq<int>>, width: int, height: int, px: int, py: int)
    requires IsImage(img, width, height) && 0 <= px <= width + 1 && 0 <= py <= height + 1
    ensures 1 <= px <= width && 1 <= py <= height ==> Padded(img, width, height, px, py) == img[py - 1][px - 1]
    ensures px == 0 ==> Padded(img, width, height, px, py) == Padded(img, width, height, 1, py)
    ensures px == width + 1 ==> Padded(img, width, height, px, py) == Padded(img, width, height, width, py)
    ensures py == 0 ==> Padded(img, width, height, px, py) == Padded(img, width, height, px, 1)
    ensures py == height + 1 ==> Padded(img, width, height, px, py) == Padded(img, width, height, px, height)
  {
  }

  /** The response of one row, written out: the three pixels, the middle one weighted by the table. */
  lemma {:induction false} RowTerms(img: seq<seq<int>>, width: int, height: int, x: int, y: int, ky: int)
    requires IsImage(img, width, height) && -1 <= ky <= 1
    ensures ResponseRow(img, width, height, x, y, ky, 2)
      == Padded(img, width, height, x - 1, y + ky) + (if ky == 0 then -8 * Padded(img, width, height, x, y + ky) else Padded(img, width, height, x, y + ky))
        + Padded(img, width, height, x + 1, y + ky)
  {
    assert Filter[ky + 1][0] == Filter[ky + 1][2] == 1 && Filter[ky + 1][1] == if ky == 0 then -8 else 1;
    assert ResponseRow(img, width, height, x, y, ky, -1) == 0;
    assert ResponseRow(img, width, height, x, y, ky, 0) == Padded(img, width, height, x - 1, y + ky) * Filter[ky + 1][0];
    assert ResponseRow(img, width, height, x, y, ky, 1)
      == ResponseRow(img, width, height, x, y, ky, 0) + Padded(img, width, height, x, y + ky) * Filter[ky + 1][1];
  }

  /** The eight neighbours of padded (px, py). */
  function Ring(img: seq<seq<int>>, width: int, height: int, px: int, py: int): int
    requires IsImage(img, width, height)
  {
    Padded(img, width, height, px - 1, py - 1) + Padded(img, width, height, px, py - 1) + Padded(img, width, height, px + 1, py - 1)
      + Padded(img, width, height, px - 1, py) + Padded(img, width, height, px + 1, py)
      + Padded(img, width, height, px - 1, py + 1) + Padded(img, width, height, px, py + 1) + Padded(img, width, height, px + 1, py + 1)
  }

  /**
   * The sharpened pixel is nine times the pixel minus its eight neighbours
   * in the padded buffer, clamped.
   */
  lemma LaplacianNeighbours(img: seq<seq<int>>, width: int, height: int, x: int, y: int)
    requires IsImage(img, width, height)
    ensures LaplacianValue(img, width, height, x, y)
      == ClampGray(9 * Padded(img, width, height, x + 1, y + 1) - Ring(img, width, height, x + 1, y + 1))
  {
    var px, py := x + 1, y + 1;
    var top, middle, bottom := ResponseRow(img, width, height, px, py, -1, 2), ResponseRow(img, width, height, px, py, 0, 2), ResponseRow(img, width, height, px, py, 1, 2);
    var centre := Padded(img, width, height, px, py);
    RowTerms(img, width, height, px, py, -1);
    RowTerms(img, width, height, px, py, 0);
    RowTerms(img, width, height, px, py, 1);
    assert middle == Padded(img, width, height, px - 1, py) - 8 * centre + Padded(img, width, height, px + 1, py);
    assert Response(img, width, height, px, py, -1, 2) == 0;
    assert Response(img, width, height, px, py, 0, 2) == top;
    assert Response(img, width, height, px, py, 1, 2) == top + middle;
    assert Response(img, width, height, px, py, 2, 2) == top + middle + bottom;
  }

  /** An image of one level v is left unchanged, border included. */
  lemma LaplacianUniform(img: seq<seq<int>>, width: int, height: int, v: int, x: int, y: int)
    requires IsImage(img, width, height) && 0 <= x < width && 0 <= y < height
    requires forall yy, xx :: 0 <= yy < height && 0 <= xx < width ==> img[yy][xx] == v
    ensures LaplacianValue(img, width, height, x, y) == v
  {
    LaplacianNeighbours(img, width, height, x, y);
    assert IsGray(img[0][0]);
  }

  /** The padding entries at rows rowLo .. rowHi and columns colLo .. colHi hold `Padded`. */
  predicate PaddedBlock(img: seq<seq<int>>, width: int, height: int, paddedImage: array2<int>, rowLo: int, rowHi: int, colLo: int, colHi: int)
    requires IsImage(img, width, height)
    requires paddedImage.Length0 == height + 2 && paddedImage.Length1 == width + 2
    reads paddedImage
  {
    forall py, px :: rowLo <= py <= rowHi && colLo <= px <= colHi && 0 <= py < height + 2 && 0 <= px < width + 2 ==>
      paddedImage[py, px] == Padded(img, width, height, px, py)
  }

  /** The first pass: the image into the middle of the buffer. */
  method CopyCentre(img: seq<seq<int>>, width: int, height: int, paddedImage: array2<int>)
    requires IsImage(img, width, height)
    requires paddedImage.Length0 == height + 2 && paddedImage.Length1 == width + 2
    modifies paddedImage
    ensures PaddedBlock(img, width, height, paddedImage, 1, height, 1, width)
  {
    for y := 0 to height
      invariant PaddedBlock(img, width, height, paddedImage, 1, y, 1, width)
    {
      var row := y + 1;
      for x := 0 to width
        invariant PaddedBlock(img, width, height, paddedImage, 1, y, 1, width)
        invariant forall px :: 1 <= px <= x ==> paddedImage[row, px] == Padded(img, width, height, px, row)
      {
        paddedImage[y + 1, x + 1] := img[y][x];
      }
    }
  }

  /** The second pass: the top and bottom rows repeat the first and last image rows. */
  method PadEdges(img: seq<seq<int>>, width: int, height: int, paddedImage: array2<int>)
    requires IsImage(img, width, height)
    requires paddedImage.Length0 == height + 2 && paddedImage.Length1 == width + 2
    requires PaddedBlock(img, width, height, paddedImage, 1, height, 1, width)
    modifies paddedImage
    ensures PaddedBlock(img, width, height, paddedImage, 0, height + 1, 1, width)
  {
    var bottom := height + 1;
    for x := 1 to width + 1
      invariant PaddedBlock(img, width, height, paddedImage, 1, height, 1, width)
      invariant forall px :: 1 <= px < x ==> paddedImage[0, px] == Padded(img, width, height, px, 0)
      invariant forall px :: 1 <= px < x ==> paddedImage[bottom, px] == Padded(img, width, height, px, bottom)
    {
      paddedImage[0, x] := img[0][x - 1];
      paddedImage[height + 1, x] := img[height - 1][x - 1];
    }
  }

  /** The third pass: the left and right columns repeat their neighbours, corners included. */
  method PadColumns(img: seq<seq<int>>, width: int, height: int, paddedImage: array2<int>)
    requires IsImage(img, width, height)
    requires paddedImage.Length0 == height + 2 && paddedImage.Length1 == width + 2
    requires PaddedBlock(img, width, height, paddedImage, 0, height + 1, 1, width)
    modifies paddedImage
    ensures PaddedBlock(img, width, height, paddedImage, 0, height + 1, 0, width + 1)
  {
    var right := width + 1;
    for y := 0 to height + 2
      invariant PaddedBlock(img, width, height, paddedImage, 0, height + 1, 1, width)
      invariant forall py :: 0 <= py < y ==> paddedImage[py, 0] == Padded(img, width, height, 0, py)
      invariant forall py :: 0 <= py < y ==> paddedImage[py, right] == Padded(img, width, height, right, py)
    {
      paddedImage[y, 0] := paddedImage[y, 1];
      paddedImage[y, width + 1] := paddedImage[y, width];
    }
  }

  /**
   * The padding passes, then the four corners set once more to the values
   * they already hold: every entry of the buffer is `Padded`.
   */
  method Pad(img: seq<seq<int>>, width: int, height: int) returns (paddedImage: array2<int>)
    requires IsImage(img, width, height)
    ensures fresh(paddedImage) && paddedImage.Length0 == height + 2 && paddedImage.Length1 == width + 2
    ensures forall py, px :: 0 <= py < height + 2 && 0 <= px < width + 2 ==> paddedImage[py, px] == Padded(img, width, height, px, py)
  {
    paddedImage := new int[height + 2, width + 2];
    CopyCentre(img, width, height, paddedImage);
    PadEdges(img, width, height, paddedImage);
    PadColumns(img, width, height, paddedImage);
    assert PaddedBlock(img, width, height, paddedImage, 0, height + 1, 0, width + 1);
    paddedImage[0, 0] := img[0][0];
    paddedImage[0, width + 1] := img[0][width - 1];
    paddedImage[height + 1, 0] := img[height - 1][0];
    paddedImage[height + 1, width + 1] := img[height - 1][width - 1];
  }

  /** The kernel loops, the subtraction and the clamp at padded position (x, y). */
  method SharpenPixel(img: seq<seq<int>>, width: int, height: int, paddedImage: array2<int>, x: int, y: int) returns (newPixelValue: int)
    requires IsImage(img, width, height) && 1 <= x <= width && 1 <= y <= height
    requires paddedImage.Length0 == height + 2 && paddedImage.Length1 == width + 2
    requires forall py, px :: 0 <= py < height + 2 && 0 <= px < width + 2 ==> paddedImage[py, px] == Padded(img, width, height, px, py)
    ensures newPixelValue == LaplacianValue(img, width, height, x - 1, y - 1)
  {
    var pixelSum := 0;
    for ky := -1 to 2
      invariant pixelSum == Response(img, width, height, x, y, ky, 2)
    {
      pixelSum := SharpenRowTerms(img, width, height, paddedImage, x, y, ky, pixelSum);
    }
    var originalPixel := paddedImage[y, x];
    newPixelValue := originalPixel - pixelSum;
    newPixelValue := ClampGray(newPixelValue);
    CentreValue(img, width, height, x, y, originalPixel, pixelSum);
  }

  /** The clamped difference at padded position (x, y) is output pixel (x - 1, y - 1). */
  lemma CentreValue(img: seq<seq<int>>, width: int, height: int, x: int, y: int, centre: int, sum: int)
    requires IsImage(img, width, height)
    requires centre == Padded(img, width, height, x, y) && sum == Response(img, width, height, x, y, 2, 2)
    ensures ClampGray(centre - sum) == LaplacianValue(img, width, height, x - 1, y - 1)
  {
  }

  /** The inner `for kx` loop: adds the filtered pixels of row offset ky to the running sum. */
  method SharpenRowTerms(img: seq<seq<int>>, width: int, height: int, paddedImage: array2<int>, x: int, y: int, ky: int, sum0: int)
    returns (sum: int)
    requires IsImage(img, width, height) && 1 <= x <= width && 1 <= y <= height && -1 <= ky <= 1
    requires paddedImage.Length0 == height + 2 && paddedImage.Length1 == width + 2
    requires forall py, px :: 0 <= py < height + 2 && 0 <= px < width + 2 ==> paddedImage[py, px] == Padded(img, width, height, px, py)
    ensures sum == sum0 + ResponseRow(img, width, height, x, y, ky, 2)
  {
    sum := sum0;
    for kx := -1 to 2
      invariant sum == sum0 + ResponseRow(img, width, height, x, y, ky, kx)
    {
      var pixel := paddedImage[y + ky, x + kx];
      ResponseRowStep(img, width, height, x, y, ky, kx, pixel);
      sum := sum + pixel * Filter[ky + 1][kx + 1];
    }
  }

  /** One more column offset kx adds the padded pixel there times its filter weight. */
  lemma ResponseRowStep(img: seq<seq<int>>, width: int, height: int, x: int, y: int, ky: int, kx: int, pixel: int)
    requires IsImage(img, width, height) && -1 <= ky <= 1 && -1 <= kx <= 1
    requires pixel == Padded(img, width, height, x + kx, y + ky)
    ensures ResponseRow(img, width, height, x, y, ky, kx + 1) == ResponseRow(img, width, height, x, y, ky, kx) + pixel * Filter[ky + 1][kx + 1]
  {
  }

  /** The `for x` loop over padded row outY + 1: output row outY is sharpened, the other rows are left alone. */
  method SharpenRow(img: seq<seq<int>>, width: int, height: int, paddedImage: array2<int>, output: array2<int>, outY: int)
    requires IsImage(img, width, height) && 0 <= outY < height
    requires paddedImage.Length0 == height + 2 && paddedImage.Length1 == width + 2
    requires forall py, px :: 0 <= py < height + 2 && 0 <= px < width + 2 ==> paddedImage[py, px] == Padded(img, width, height, px, py)
    requires output.Length0 == height && output.Length1 == width && output != paddedImage
    modifies output
    ensures forall xx :: 0 <= xx < width ==> output[outY, xx] == LaplacianValue(img, width, height, xx, outY)
    ensures forall yy, xx :: 0 <= yy < height && yy != outY && 0 <= xx < width ==> output[yy, xx] == old(output[yy, xx])
  {
    var y := outY + 1;
    for x := 1 to width + 1
      invariant forall xx :: 0 <= xx < x - 1 ==> output[outY, xx] == LaplacianValue(img, width, height, xx, outY)
      invariant forall yy, xx :: 0 <= yy < height && yy != outY && 0 <= xx < width ==> output[yy, xx] == old(output[yy, xx])
    {
      SharpenAt(img, width, height, paddedImage, output, x, y);
    }
  }

  /** One pass of the `for x` loop: output pixel (x - 1, y - 1) is sharpened, every other one is left alone. */
  method SharpenAt(img: seq<seq<int>>, width: int, height: int, paddedImage: array2<int>, output: array2<int>, x: int, y: int)
    requires IsImage(img, width, height) && 1 <= x <= width && 1 <= y <= height
    requires paddedImage.Length0 == height + 2 && paddedImage.Length1 == width + 2
    requires forall py, px :: 0 <= py < height + 2 && 0 <= px < width + 2 ==> paddedImage[py, px] == Padded(img, width, height, px, py)
    requires output.Length0 == height && output.Length1 == width && output != paddedImage
    modifies output
    ensures output[y - 1, x - 1] == LaplacianValue(img, width, height, x - 1, y - 1)
    ensures forall yy, xx :: 0 <= yy < height && 0 <= xx < width && (yy != y - 1 || xx != x - 1) ==> output[yy, xx] == old(output[yy, xx])
  {
    output[y - 1, x - 1] := SharpenPixel(img, width, height, paddedImage, x, y);
  }

  /** `laplacianSharpeningFilter(inputImage)`: every pixel is mapped by `LaplacianValue`. */
  method LaplacianSharpeningFilter(img: seq<seq<int>>, width: int, height: int) returns (output: array2<int>)
    requires IsImage(img, width, height)
    ensures fresh(output) && output.Length0 == height && output.Length1 == width
    ensures forall y, x :: 0 <= y < height && 0 <= x < width ==> output[y, x] == LaplacianValue(img, width, height, x, y)
  {
    var paddedImage := Pad(img, width, height);
    output := new int[height, width];
    for y := 1 to height + 1
      modifies output
      invariant forall yy, xx :: 0 <= yy < y - 1 && 0 <= xx < width ==> output[yy, xx] == LaplacianValue(img, width, height, xx, yy)
    {
      SharpenRow(img, width, height, paddedImage, output, y - 1);
    }
  }
}
