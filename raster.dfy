/**
 * The gray-value grid that stands for a `BufferedImage` once pixel access is
 * abstracted: `height` rows of `width` values in 0..255. A `BufferedImage` always
 * has at least one row and one column.
 */
module Raster {

  /**
   * The exceptions a filter can end in: `charAt` outside the string, a
   * `Color` component outside 0..255, an integer division by zero, `get` on
   * an empty list.
   */
  datatype FilterError = StringIndexOutOfBounds | IllegalArgument | ArithmeticException | IndexOutOfBounds

  predicate IsGray(v: int)
  {
    0 <= v < 256
  }

  /** A row-major stream of gray levels. */
  predicate IsGrayStream(s: seq<int>)
  {
    forall k :: 0 <= k < |s| ==> IsGray(s[k])
  }

  predicate IsImage(img: seq<seq<int>>, width: int, height: int)
  {
    && width >= 1 && height >= 1 && |img| == height
    && forall y :: 0 <= y < height ==> |img[y]| == width && forall x :: 0 <= x < width ==> IsGray(img[y][x])
  }

  /** The row-major gray stream of a grid: pixel (x, y) lands at index y * width + x. */
  function Flatten(img: seq<seq<int>>): seq<int>
  {
    if img == [] then [] else Flatten(img[..|img| - 1]) + img[|img| - 1]
  }

  /** n copies of v; a non-positive n gives none. */
  function Repeat(v: int, n: int): (r: seq<int>)
    ensures |r| == if n > 0 then n else 0
    ensures forall k :: 0 <= k < |r| ==> r[k] == v
  {
    seq(if n > 0 then n else 0, _ => v)
  }

  /** A grid of height rows of width values has width * height values in its row-major stream. */
  lemma {:induction false} FlattenLength(img: seq<seq<int>>, width: int, height: int)
    requires |img| == height && forall y :: 0 <= y < height ==> |img[y]| == width
    ensures |Flatten(img)| == width * height
  {
    if height > 0 {
      FlattenLength(img[..height - 1], width, height - 1);
      MulStep(width, height);
    }
  }

  /** Pixel (x, y) sits at index y * width + x of the stream. */
  lemma {:induction false} FlattenAt(img: seq<seq<int>>, width: int, height: int, x: int, y: int)
    requires |img| == height && forall yy :: 0 <= yy < height ==> |img[yy]| == width
    requires 0 <= x < width && 0 <= y < height
    ensures 0 <= y * width + x < |Flatten(img)| && Flatten(img)[y * width + x] == img[y][x]
  {
    var init := img[..height - 1];
    var i := y * width + x;
    FlattenLength(init, width, height - 1);
    FlattenLength(img, width, height);
    PositionInImage(x, y, width, height);
    assert Flatten(img) == Flatten(init) + img[height - 1];
    if y < height - 1 {
      FlattenAt(init, width, height - 1, x, y);
      assert init[y] == img[y];
    } else {
      assert i == width * (height - 1) + x;
    }
  }

  /** The row-major stream of a gray grid holds only gray levels. */
  lemma FlattenGray(img: seq<seq<int>>, width: int, height: int)
    requires IsImage(img, width, height)
    ensures IsGrayStream(Flatten(img))
  {
    forall y | 0 <= y < |img|
      ensures IsGrayStream(img[y])
    {
    }
    RowsGray(img);
  }

  /** Rows of gray levels, concatenated, are a gray stream. */
  lemma {:induction false} RowsGray(rows: seq<seq<int>>)
    requires forall y :: 0 <= y < |rows| ==> IsGrayStream(rows[y])
    ensures IsGrayStream(Flatten(rows))
  {
    if rows != [] {
      var init, last := rows[..|rows| - 1], rows[|rows| - 1];
      RowsGray(init);
      assert IsGrayStream(last);
      GrayConcat(Flatten(init), last);
    }
  }

  lemma GrayConcat(a: seq<int>, b: seq<int>)
    requires IsGrayStream(a) && IsGrayStream(b)
    ensures IsGrayStream(a + b)
  {
    forall k | 0 <= k < |a + b|
      ensures IsGray((a + b)[k])
    {
      if k >= |a| {
        assert (a + b)[k] == b[k - |a|];
      }
    }
  }

  lemma {:induction false} MulStep(width: int, height: int)
    ensures width * (height - 1) + width == width * height
  {
  }

  lemma {:induction false} MulMonotone(a: nat, b: nat, c: nat)
    requires a <= b
    ensures a * c <= b * c
  {
  }

  /** The first y rows of a raster, y <= height, hold at most its width * height pixels. */
  lemma {:induction false} RowsInImage(y: int, width: int, height: int)
    requires 0 <= y <= height && 0 <= width
    ensures 0 <= y * width <= width * height
  {
    MulMonotone(y, height, width);
  }

  /** Moving from the last column of a row to the first column of the next. */
  lemma {:induction false} NextRow(y: int, width: int)
    ensures (y + 1) * width + 0 == y * width + (width - 1) + 1
  {
  }

  /** Pixel (x, y) of a width-by-height raster has its row-major index inside the raster. */
  lemma {:induction false} PositionInImage(x: int, y: int, width: int, height: int)
    requires 0 <= x < width && 0 <= y < height
    ensures 0 <= y * width + x < width * height
  {
    assert y * width <= (height - 1) * width;
  }
}
